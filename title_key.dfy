/**
 * The title normaliser `normalize_title` (app.py lines 9-15, copied verbatim in
 * testing/debug_watchlist.py lines 21-27): compatibility decomposition,
 * lower-casing, `&` to `and`, removal of every character outside `[a-z0-9 ]`,
 * collapsing of whitespace runs and trimming.
 */
module TitleKey {

  // ---------------------------------------------------------------------------
  // Character classes
  // ---------------------------------------------------------------------------

  /** The characters Python's `str.isspace` (and so `\s` and `str.strip()`) accepts. */
  predicate IsSpace(c: char) {
    c == ' ' || '\t' <= c <= '\r' || '\U{1C}' <= c <= '\U{1F}' || c == '\U{85}' || c == '\U{A0}'
    || c == '\U{1680}' || '\U{2000}' <= c <= '\U{200A}' || c == '\U{2028}' || c == '\U{2029}'
    || c == '\U{202F}' || c == '\U{205F}' || c == '\U{3000}'
  }

  /** The characters the key keeps: `[a-z0-9 ]`. */
  predicate IsKeyChar(c: char) {
    'a' <= c <= 'z' || '0' <= c <= '9' || c == ' '
  }

  /** Whitespace at index `i` and at index `i + 1` of `s`. */
  predicate SpacePairAt(s: string, i: int)
    requires 0 <= i < |s| - 1
  {
    IsSpace(s[i]) && IsSpace(s[i + 1])
  }

  /** A well-formed key: only key characters, no two spaces in a row, no space at either end. */
  predicate IsKey(k: string) {
    && (forall i :: 0 <= i < |k| ==> IsKeyChar(k[i]))
    && (forall i :: 0 <= i < |k| - 1 ==> !SpacePairAt(k, i))
    && (k != [] ==> k[0] != ' ' && k[|k| - 1] != ' ')
  }

  // ---------------------------------------------------------------------------
  // Character-wise rewriting
  // ---------------------------------------------------------------------------

  /** Replaces every character `c` of `s` by `f(c)`, in order. */
  function ConcatMap(f: char -> string, s: string): string
    decreases |s|
  {
    if s == [] then [] else f(s[0]) + ConcatMap(f, s[1..])
  }

  lemma {:induction false} ConcatMapAppend(f: char -> string, a: string, b: string)
    ensures ConcatMap(f, a + b) == ConcatMap(f, a) + ConcatMap(f, b)
    decreases |a|
  {
    if a == [] {
      assert a + b == b;
    } else {
      assert (a + b)[1..] == a[1..] + b;
      ConcatMapAppend(f, a[1..], b);
    }
  }

  /** A rewriting that leaves every character of `s` alone leaves `s` alone. */
  lemma {:induction false} ConcatMapFixed(f: char -> string, s: string)
    requires forall i :: 0 <= i < |s| ==> f(s[i]) == [s[i]]
    ensures ConcatMap(f, s) == s
    decreases |s|
  {
    if s != [] {
      ConcatMapFixed(f, s[1..]);
    }
  }

  /** A rewriting that sends each character to characters satisfying `P` produces only such characters. */
  lemma {:induction false} ConcatMapAll(f: char -> string, P: char -> bool, s: string)
    requires forall c, i :: 0 <= i < |f(c)| ==> P(f(c)[i])
    ensures forall i :: 0 <= i < |ConcatMap(f, s)| ==> P(ConcatMap(f, s)[i])
    decreases |s|
  {
    if s != [] {
      ConcatMapAll(f, P, s[1..]);
      var r := ConcatMap(f, s);
      forall i | 0 <= i < |r| ensures P(r[i]) {
        if i >= |f(s[0])| {
          assert r[i] == ConcatMap(f, s[1..])[i - |f(s[0])|];
        }
      }
    }
  }

  // ---------------------------------------------------------------------------
  // Step 1: compatibility decomposition (NFKD)
  // ---------------------------------------------------------------------------

  /**
   * The compatibility decomposition (NFKD) of one character, as far as the
   * model's tables go: every character of Latin-1 (U+00A0 to U+00FF) that has a
   * compatibility decomposition; U+0130, U+212A, U+FB01 and U+FB02; and the
   * spaces U+2000 to U+200A, U+202F, U+205F and U+3000, which become U+0020.
   * Every other character, ASCII among them, decomposes to itself.
   */
  function DecomposeChar(c: char): string {
    if c < '\U{A0}' then [c]
    else if c < '\U{C0}' then SymbolTable(c)
    else if c < '\U{E0}' then CapitalTable(c)
    else if c <= '\U{FF}' then SmallTable(c)
    else OtherTable(c)
  }

  /** Latin-1 spaces, marks, superscripts, ordinals and fractions (U+00A0 to U+00BF). */
  function SymbolTable(c: char): string {
    match c
    case '\U{A0}' => " "
    case '\U{A8}' => " \U{308}"
    case '\U{AA}' => "a"
    case '\U{AF}' => " \U{304}"
    case '\U{B2}' => "2"
    case '\U{B3}' => "3"
    case '\U{B4}' => " \U{301}"
    case '\U{B5}' => "\U{3BC}"
    case '\U{B8}' => " \U{327}"
    case '\U{B9}' => "1"
    case '\U{BA}' => "o"
    case '\U{BC}' => "1\U{2044}4"
    case '\U{BD}' => "1\U{2044}2"
    case '\U{BE}' => "3\U{2044}4"
    case _ => [c]
  }

  /** Latin-1 capitals with a diacritic (U+00C0 to U+00DF). */
  function CapitalTable(c: char): string {
    match c
    case '\U{C0}' => "A\U{300}"
    case '\U{C1}' => "A\U{301}"
    case '\U{C2}' => "A\U{302}"
    case '\U{C3}' => "A\U{303}"
    case '\U{C4}' => "A\U{308}"
    case '\U{C5}' => "A\U{30A}"
    case '\U{C7}' => "C\U{327}"
    case '\U{C8}' => "E\U{300}"
    case '\U{C9}' => "E\U{301}"
    case '\U{CA}' => "E\U{302}"
    case '\U{CB}' => "E\U{308}"
    case '\U{CC}' => "I\U{300}"
    case '\U{CD}' => "I\U{301}"
    case '\U{CE}' => "I\U{302}"
    case '\U{CF}' => "I\U{308}"
    case '\U{D1}' => "N\U{303}"
    case '\U{D2}' => "O\U{300}"
    case '\U{D3}' => "O\U{301}"
    case '\U{D4}' => "O\U{302}"
    case '\U{D5}' => "O\U{303}"
    case '\U{D6}' => "O\U{308}"
    case '\U{D9}' => "U\U{300}"
    case '\U{DA}' => "U\U{301}"
    case '\U{DB}' => "U\U{302}"
    case '\U{DC}' => "U\U{308}"
    case '\U{DD}' => "Y\U{301}"
    case _ => [c]
  }

  /** Latin-1 small letters with a diacritic (U+00E0 to U+00FF). */
  function SmallTable(c: char): string {
    match c
    case '\U{E0}' => "a\U{300}"
    case '\U{E1}' => "a\U{301}"
    case '\U{E2}' => "a\U{302}"
    case '\U{E3}' => "a\U{303}"
    case '\U{E4}' => "a\U{308}"
    case '\U{E5}' => "a\U{30A}"
    case '\U{E7}' => "c\U{327}"
    case '\U{E8}' => "e\U{300}"
    case '\U{E9}' => "e\U{301}"
    case '\U{EA}' => "e\U{302}"
    case '\U{EB}' => "e\U{308}"
    case '\U{EC}' => "i\U{300}"
    case '\U{ED}' => "i\U{301}"
    case '\U{EE}' => "i\U{302}"
    case '\U{EF}' => "i\U{308}"
    case '\U{F1}' => "n\U{303}"
    case '\U{F2}' => "o\U{300}"
    case '\U{F3}' => "o\U{301}"
    case '\U{F4}' => "o\U{302}"
    case '\U{F5}' => "o\U{303}"
    case '\U{F6}' => "o\U{308}"
    case '\U{F9}' => "u\U{300}"
    case '\U{FA}' => "u\U{301}"
    case '\U{FB}' => "u\U{302}"
    case '\U{FC}' => "u\U{308}"
    case '\U{FD}' => "y\U{301}"
    case '\U{FF}' => "y\U{308}"
    case _ => [c]
  }

  /** Characters beyond Latin-1 whose decomposition holds an ASCII letter or the ASCII space. */
  function OtherTable(c: char): string {
    match c
    case '\U{130}' => "I\U{307}"
    case '\U{212A}' => "K"
    case '\U{FB01}' => "fi"
    case '\U{FB02}' => "fl"
    case '\U{2000}' => " "
    case '\U{2001}' => " "
    case '\U{2002}' => " "
    case '\U{2003}' => " "
    case '\U{2004}' => " "
    case '\U{2005}' => " "
    case '\U{2006}' => " "
    case '\U{2007}' => " "
    case '\U{2008}' => " "
    case '\U{2009}' => " "
    case '\U{200A}' => " "
    case '\U{202F}' => " "
    case '\U{205F}' => " "
    case '\U{3000}' => " "
    case _ => [c]
  }

  function Decompose(s: string): string {
    ConcatMap(DecomposeChar, s)
  }

  // ---------------------------------------------------------------------------
  // Step 2: lower-casing, step 3: `&` to `and`, step 4: the key filter
  // ---------------------------------------------------------------------------

  /** Python's `str.lower` on one character, for ASCII and Latin-1 capitals. */
  function LowerChar(c: char): string {
    if 'A' <= c <= 'Z' || ('\U{C0}' <= c <= '\U{DE}' && c != '\U{D7}') then
      [(c as int + 32) as char]
    else
      [c]
  }

  function Lower(s: string): string {
    ConcatMap(LowerChar, s)
  }

  function ExpandAmpersand(c: char): string {
    if c == '&' then "and" else [c]
  }

  function ReplaceAmpersand(s: string): string {
    ConcatMap(ExpandAmpersand, s)
  }

  function KeepKeyChar(c: char): string {
    if IsKeyChar(c) then [c] else []
  }

  /** `re.sub(r'[^a-z0-9 ]', '', s)`. */
  function KeepKeyChars(s: string): string {
    ConcatMap(KeepKeyChar, s)
  }

  /** A character the decomposition leaves alone. */
  predicate Decomposed(c: char) {
    DecomposeChar(c) == [c]
  }

  /** The characters the tables decompose into: ASCII, combining marks, U+03BC and U+2044. */
  predicate TableOutput(c: char) {
    c < '\U{A0}' || '\U{300}' <= c <= '\U{327}' || c == '\U{3BC}' || c == '\U{2044}'
  }

  lemma TableOutputDecomposed(c: char)
    requires TableOutput(c)
    ensures Decomposed(c)
  {
  }

  /** The Latin-1 symbols decompose into `TableOutput` characters. */
  lemma SymbolsDecomposeToOutputs(c: char)
    requires '\U{A0}' <= c < '\U{C0}' && DecomposeChar(c) != [c]
    ensures forall i :: 0 <= i < |DecomposeChar(c)| ==> TableOutput(DecomposeChar(c)[i])
  {
  }

  /** The Latin-1 capitals decompose into `TableOutput` characters. */
  lemma CapitalsDecomposeToOutputs(c: char)
    requires '\U{C0}' <= c < '\U{E0}' && DecomposeChar(c) != [c]
    ensures forall i :: 0 <= i < |DecomposeChar(c)| ==> TableOutput(DecomposeChar(c)[i])
  {
  }

  /** The Latin-1 small letters decompose into `TableOutput` characters. */
  lemma SmallsDecomposeToOutputs(c: char)
    requires '\U{E0}' <= c <= '\U{FF}' && DecomposeChar(c) != [c]
    ensures forall i :: 0 <= i < |DecomposeChar(c)| ==> TableOutput(DecomposeChar(c)[i])
  {
  }

  /** The entries beyond Latin-1 decompose into `TableOutput` characters. */
  lemma OthersDecomposeToOutputs(c: char)
    requires '\U{FF}' < c && DecomposeChar(c) != [c]
    ensures forall i :: 0 <= i < |DecomposeChar(c)| ==> TableOutput(DecomposeChar(c)[i])
  {
  }

  /** Every character a decomposition produces is left alone by the decomposition. */
  lemma DecomposeCharDecomposed(c: char)
    ensures forall i :: 0 <= i < |DecomposeChar(c)| ==> Decomposed(DecomposeChar(c)[i])
  {
    var d := DecomposeChar(c);
    if d != [c] {
      if c < '\U{C0}' {
        SymbolsDecomposeToOutputs(c);
      } else if c < '\U{E0}' {
        CapitalsDecomposeToOutputs(c);
      } else if c <= '\U{FF}' {
        SmallsDecomposeToOutputs(c);
      } else {
        OthersDecomposeToOutputs(c);
      }
      forall i | 0 <= i < |d| ensures Decomposed(d[i]) {
        TableOutputDecomposed(d[i]);
      }
    }
  }

  /** Decomposing twice changes nothing: what the decomposition produces is already decomposed. */
  lemma DecomposeIdempotent(s: string)
    ensures Decompose(Decompose(s)) == Decompose(s)
  {
    forall c: char
      ensures forall i :: 0 <= i < |DecomposeChar(c)| ==> Decomposed(DecomposeChar(c)[i])
    {
      DecomposeCharDecomposed(c);
    }
    ConcatMapAll(DecomposeChar, Decomposed, s);
    ConcatMapFixed(DecomposeChar, Decompose(s));
  }

  predicate NotCapital(c: char) {
    !('A' <= c <= 'Z')
  }

  /** After lower-casing no ASCII capital is left, so the filter's `a-z` keeps every letter. */
  lemma LowerLeavesNoCapitals(s: string)
    ensures forall i :: 0 <= i < |Lower(s)| ==> NotCapital(Lower(s)[i])
  {
    ConcatMapAll(LowerChar, NotCapital, s);
  }

  predicate NotAmpersand(c: char) {
    c != '&'
  }

  /** After the replacement no `&` is left. */
  lemma ReplaceAmpersandLeavesNone(s: string)
    ensures forall i :: 0 <= i < |ReplaceAmpersand(s)| ==> NotAmpersand(ReplaceAmpersand(s)[i])
  {
    ConcatMapAll(ExpandAmpersand, NotAmpersand, s);
  }

  // ---------------------------------------------------------------------------
  // Step 5: collapse whitespace runs, then strip
  // ---------------------------------------------------------------------------

  /** The number of whitespace characters at the front of `s`. */
  function LeadingSpaces(s: string): (n: nat)
    ensures n <= |s|
  {
    if s == [] || !IsSpace(s[0]) then 0 else 1 + LeadingSpaces(s[1..])
  }

  /** `LeadingSpaces` counts the whole whitespace run at the front and stops at the first other character. */
  lemma {:induction false} LeadingSpacesRun(s: string)
    ensures forall i :: 0 <= i < LeadingSpaces(s) ==> IsSpace(s[i])
    ensures LeadingSpaces(s) < |s| ==> !IsSpace(s[LeadingSpaces(s)])
    decreases |s|
  {
    if s != [] && IsSpace(s[0]) {
      LeadingSpacesRun(s[1..]);
    }
  }

  /** The number of whitespace characters at the back of `s`. */
  function TrailingSpaces(s: string): (n: nat)
    ensures n <= |s|
  {
    if s == [] || !IsSpace(s[|s| - 1]) then 0 else 1 + TrailingSpaces(s[..|s| - 1])
  }

  /** `TrailingSpaces` counts the whole whitespace run at the back and stops at the last other character. */
  lemma {:induction false} TrailingSpacesRun(s: string)
    ensures forall i :: |s| - TrailingSpaces(s) <= i < |s| ==> IsSpace(s[i])
    ensures TrailingSpaces(s) < |s| ==> !IsSpace(s[|s| - 1 - TrailingSpaces(s)])
    decreases |s|
  {
    if s != [] && IsSpace(s[|s| - 1]) {
      TrailingSpacesRun(s[..|s| - 1]);
    }
  }

  /** Whitespace is only ever the plain space, and never two in a row. */
  predicate Collapsed(s: string) {
    && (forall i :: 0 <= i < |s| ==> IsSpace(s[i]) ==> s[i] == ' ')
    && (forall i :: 0 <= i < |s| - 1 ==> !SpacePairAt(s, i))
  }

  /** `re.sub(r'\s+', ' ', s)`: every maximal run of whitespace becomes one space. */
  function CollapseWhitespace(s: string): (r: string)
    ensures |r| <= |s|
    decreases |s|
  {
    if s == [] then []
    else
      var head := if IsSpace(s[0]) then ' ' else s[0];
      var tail :=
        if IsSpace(s[0]) then CollapseWhitespace(s[1 + LeadingSpaces(s[1..])..])
        else CollapseWhitespace(s[1..]);
      [head] + tail
  }

  /**
   * What the collapse leaves: no whitespace but single plain spaces, nothing
   * from nothing, a first character that is whitespace exactly when the
   * input's is, no character that was not in the input except the space, and
   * the input's other characters unchanged and in order. Exactly: the input
   * with every whitespace character turned into a space and every run of
   * spaces merged into one.
   */
  lemma CollapseWhitespaceSpec(s: string)
    ensures var r := CollapseWhitespace(s);
            && Collapsed(r)
            && (r == [] <==> s == [])
            && (r != [] ==> (IsSpace(r[0]) <==> IsSpace(s[0])))
            && (forall i :: 0 <= i < |r| ==> r[i] == ' ' || r[i] in s)
            && NonSpace(r) == NonSpace(s)
            && r == MergeSpaces(Blank(s))
  {
    CollapseKeepsChars(s);
    CollapseIsCollapsed(s);
    CollapseKeepsNonSpace(s);
    CollapseIsMergedBlanks(s);
  }

  /** The collapse's characters: the space and characters of the input, the first one whitespace when the input's is. */
  lemma {:induction false} CollapseKeepsChars(s: string)
    ensures var r := CollapseWhitespace(s);
            && (r == [] <==> s == [])
            && (r != [] ==> (IsSpace(r[0]) <==> IsSpace(s[0])))
            && (forall i :: 0 <= i < |r| ==> r[i] == ' ' || r[i] in s)
    decreases |s|
  {
    if s != [] {
      var r := CollapseWhitespace(s);
      var rest := if IsSpace(s[0]) then s[1 + LeadingSpaces(s[1..])..] else s[1..];
      var tail := CollapseWhitespace(rest);
      CollapseKeepsChars(rest);
      assert r == [r[0]] + tail;
      forall i | 0 <= i < |r| ensures r[i] == ' ' || r[i] in s {
        if i > 0 && r[i] != ' ' {
          assert r[i] == tail[i - 1];
          assert tail[i - 1] in rest;
        }
      }
    }
  }

  /** The collapse leaves no whitespace but single plain spaces. */
  lemma {:induction false} CollapseIsCollapsed(s: string)
    ensures Collapsed(CollapseWhitespace(s))
    decreases |s|
  {
    if s != [] {
      var r := CollapseWhitespace(s);
      var rest := if IsSpace(s[0]) then s[1 + LeadingSpaces(s[1..])..] else s[1..];
      var tail := CollapseWhitespace(rest);
      CollapseIsCollapsed(rest);
      assert r == [r[0]] + tail;
      if IsSpace(s[0]) && tail != [] {
        CollapseKeepsChars(rest);
        LeadingSpacesRun(s[1..]);
        assert rest[0] == s[1..][LeadingSpaces(s[1..])];
      }
      forall i | 1 <= i < |r| - 1 ensures SpacePairAt(r, i) == SpacePairAt(tail, i - 1) {
      }
    }
  }

  /** `s.strip()`: `s` without its leading and trailing whitespace. */
  function Strip(s: string): (r: string)
    ensures |r| <= |s|
  {
    var t := s[LeadingSpaces(s)..];
    t[..|t| - TrailingSpaces(t)]
  }

  /**
   * What the strip leaves: a piece of `s` that neither starts nor ends with
   * whitespace, with only whitespace cut off before and after it, and `s`
   * itself when `s` already does neither.
   */
  lemma StripSpec(s: string)
    ensures var r := Strip(s);
            && (r != [] ==> !IsSpace(r[0]) && !IsSpace(r[|r| - 1]))
            && ((s == [] || (!IsSpace(s[0]) && !IsSpace(s[|s| - 1]))) ==> r == s)
            && LeadingSpaces(s) + |r| <= |s| && r == s[LeadingSpaces(s)..LeadingSpaces(s) + |r|]
            && (forall i :: 0 <= i < LeadingSpaces(s) ==> IsSpace(s[i]))
            && (forall i :: LeadingSpaces(s) + |r| <= i < |s| ==> IsSpace(s[i]))
  {
    var lo := LeadingSpaces(s);
    var t := s[lo..];
    var n := TrailingSpaces(t);
    var r := Strip(s);
    assert r == s[lo..lo + |r|];
    LeadingSpacesRun(s);
    StripCutsSpaces(s);
    if r != [] {
      TrailingSpacesRun(t);
      assert r[0] == t[0];
      assert r[|r| - 1] == t[|t| - 1 - n];
    }
  }

  lemma StripCutsSpaces(s: string)
    ensures forall i :: LeadingSpaces(s) + |Strip(s)| <= i < |s| ==> IsSpace(s[i])
  {
    var lo := LeadingSpaces(s);
    var t := s[lo..];
    TrailingSpacesRun(t);
    forall i | lo + |Strip(s)| <= i < |s| ensures IsSpace(s[i]) {
      assert s[i] == t[i - lo];
    }
  }

  /** Whitespace-only text: nothing but characters `IsSpace` accepts. */
  predicate AllSpace(s: string) {
    forall i :: 0 <= i < |s| ==> IsSpace(s[i])
  }

  function NonSpaceChar(c: char): string {
    if IsSpace(c) then [] else [c]
  }

  /** The characters of `s` other than whitespace, in order. */
  function NonSpace(s: string): string {
    ConcatMap(NonSpaceChar, s)
  }

  lemma {:induction false} NonSpaceOfSpaces(s: string)
    requires AllSpace(s)
    ensures NonSpace(s) == []
    decreases |s|
  {
    if s != [] {
      assert AllSpace(s[1..]) by {
        forall i | 0 <= i < |s| - 1 ensures IsSpace(s[1..][i]) {
          assert s[1..][i] == s[i + 1];
        }
      }
      NonSpaceOfSpaces(s[1..]);
    }
  }

  lemma NonSpaceCons(c: char, t: string)
    ensures NonSpace([c] + t) == NonSpaceChar(c) + NonSpace(t)
  {
    assert ([c] + t)[1..] == t;
  }

  function BlankChar(c: char): string {
    if IsSpace(c) then " " else [c]
  }

  /** `s` with every whitespace character turned into a plain space. */
  function Blank(s: string): string {
    ConcatMap(BlankChar, s)
  }

  /** Drops every plain space that is followed by another. */
  function MergeSpaces(s: string): string
    decreases |s|
  {
    if |s| < 2 then s
    else if s[0] == ' ' && s[1] == ' ' then MergeSpaces(s[1..])
    else [s[0]] + MergeSpaces(s[1..])
  }

  /** A whitespace run at the front of `s` comes out of blanking and merging as one space. */
  lemma {:induction false} MergeSpaceRun(s: string)
    requires s != [] && IsSpace(s[0])
    ensures MergeSpaces(Blank(s)) == [' '] + MergeSpaces(Blank(s[LeadingSpaces(s)..]))
    decreases |s|
  {
    var b := Blank(s);
    assert b == " " + Blank(s[1..]);
    if |s| == 1 {
      assert s[1..] == [];
    } else if IsSpace(s[1]) {
      assert Blank(s[1..]) == " " + Blank(s[2..]) by {
        assert s[1..][1..] == s[2..];
      }
      assert b[1..] == Blank(s[1..]);
      MergeSpaceRun(s[1..]);
      assert s[1..][LeadingSpaces(s[1..])..] == s[LeadingSpaces(s)..];
    } else {
      assert Blank(s[1..]) == [s[1]] + Blank(s[2..]) by {
        assert s[1..][1..] == s[2..];
      }
      assert b[1..] == Blank(s[1..]);
    }
  }

  /**
   * The collapse agrees with an independent reading of `re.sub(r'\s+', ' ', s)`:
   * turn every whitespace character into a space, then keep one space of every
   * run of spaces.
   */
  lemma {:induction false} CollapseIsMergedBlanks(s: string)
    ensures CollapseWhitespace(s) == MergeSpaces(Blank(s))
    decreases |s|
  {
    if s != [] {
      var b := Blank(s);
      if IsSpace(s[0]) {
        MergeSpaceRun(s);
        CollapseIsMergedBlanks(s[LeadingSpaces(s)..]);
        assert 1 + LeadingSpaces(s[1..]) == LeadingSpaces(s);
      } else {
        assert b == [s[0]] + Blank(s[1..]);
        CollapseIsMergedBlanks(s[1..]);
        if |s| > 1 {
          assert [Blank(s[1..])[0]] == BlankChar(s[1]) by {
            assert Blank(s[1..]) == BlankChar(s[1..][0]) + Blank(s[1..][1..]);
          }
          assert b[1..] == Blank(s[1..]);
        } else {
          assert s[1..] == [];
        }
      }
    }
  }

  lemma {:induction false} MergeKeepsNonSpace(s: string)
    ensures NonSpace(MergeSpaces(s)) == NonSpace(s)
    decreases |s|
  {
    if |s| >= 2 {
      assert s == [s[0]] + s[1..];
      NonSpaceCons(s[0], s[1..]);
      MergeKeepsNonSpace(s[1..]);
      if !(s[0] == ' ' && s[1] == ' ') {
        NonSpaceCons(s[0], MergeSpaces(s[1..]));
      }
    }
  }

  lemma {:induction false} BlankKeepsNonSpace(s: string)
    ensures NonSpace(Blank(s)) == NonSpace(s)
    decreases |s|
  {
    if s != [] {
      assert s == [s[0]] + s[1..];
      NonSpaceCons(s[0], s[1..]);
      BlankKeepsNonSpace(s[1..]);
      assert Blank(s) == BlankChar(s[0]) + Blank(s[1..]);
      NonSpaceCons(BlankChar(s[0])[0], Blank(s[1..]));
    }
  }

  /** The collapse only rewrites whitespace: the other characters come out unchanged and in order. */
  lemma CollapseKeepsNonSpace(s: string)
    ensures NonSpace(CollapseWhitespace(s)) == NonSpace(s)
  {
    CollapseIsMergedBlanks(s);
    MergeKeepsNonSpace(Blank(s));
    BlankKeepsNonSpace(s);
  }

  /** The strip only removes whitespace. */
  lemma StripKeepsNonSpace(s: string)
    ensures NonSpace(Strip(s)) == NonSpace(s)
  {
    StripSpec(s);
    var lo := LeadingSpaces(s);
    var r := Strip(s);
    var hi := lo + |r|;
    assert s == s[..lo] + r + s[hi..];
    assert AllSpace(s[..lo]) by {
      forall i | 0 <= i < lo ensures IsSpace(s[..lo][i]) {
        assert s[..lo][i] == s[i];
      }
    }
    assert AllSpace(s[hi..]) by {
      forall i | 0 <= i < |s| - hi ensures IsSpace(s[hi..][i]) {
        assert s[hi..][i] == s[hi + i];
      }
    }
    ConcatMapAppend(NonSpaceChar, s[..lo] + r, s[hi..]);
    ConcatMapAppend(NonSpaceChar, s[..lo], r);
    NonSpaceOfSpaces(s[..lo]);
    NonSpaceOfSpaces(s[hi..]);
  }

  // ---------------------------------------------------------------------------
  // The normaliser
  // ---------------------------------------------------------------------------

  /** `normalize_title`: the comparison key of a title. */
  function Normalize(title: string): (key: string)
    ensures IsKey(key)
    ensures title == [] ==> key == []
  {
    var kept := KeepKeyChars(ReplaceAmpersand(Lower(Decompose(title))));
    KeepKeyCharsAreKeyChars(ReplaceAmpersand(Lower(Decompose(title))));
    var collapsed := CollapseWhitespace(kept);
    var key := Strip(collapsed);
    StripCollapsedIsKey(kept, collapsed, key);
    key
  }

  lemma KeepKeyCharsAreKeyChars(s: string)
    ensures forall i :: 0 <= i < |KeepKeyChars(s)| ==> IsKeyChar(KeepKeyChars(s)[i])
  {
    ConcatMapAll(KeepKeyChar, IsKeyChar, s);
  }

  lemma StripCollapsedIsKey(kept: string, collapsed: string, key: string)
    requires forall i :: 0 <= i < |kept| ==> IsKeyChar(kept[i])
    requires collapsed == CollapseWhitespace(kept) && key == Strip(collapsed)
    ensures IsKey(key)
  {
    CollapsedKeyChars(kept, collapsed);
    CollapseWhitespaceSpec(kept);
    StrippedKey(collapsed, key);
  }

  lemma CollapsedKeyChars(kept: string, collapsed: string)
    requires forall i :: 0 <= i < |kept| ==> IsKeyChar(kept[i])
    requires collapsed == CollapseWhitespace(kept)
    ensures forall i :: 0 <= i < |collapsed| ==> IsKeyChar(collapsed[i])
  {
    CollapseWhitespaceSpec(kept);
    forall i | 0 <= i < |collapsed| ensures IsKeyChar(collapsed[i]) {
      if collapsed[i] != ' ' {
        assert collapsed[i] in kept;
        var j :| 0 <= j < |kept| && kept[j] == collapsed[i];
      }
    }
  }

  lemma StrippedKey(collapsed: string, key: string)
    requires forall i :: 0 <= i < |collapsed| ==> IsKeyChar(collapsed[i])
    requires Collapsed(collapsed) && key == Strip(collapsed)
    ensures IsKey(key)
  {
    StripSpec(collapsed);
    var lo := LeadingSpaces(collapsed);
    CollapsedSlice(collapsed, lo, lo + |key|);
  }

  /** A piece of a collapsed string of key characters is one too. */
  lemma CollapsedSlice(s: string, lo: int, hi: int)
    requires forall i :: 0 <= i < |s| ==> IsKeyChar(s[i])
    requires Collapsed(s) && 0 <= lo <= hi <= |s|
    ensures forall i :: 0 <= i < hi - lo ==> IsKeyChar(s[lo..hi][i])
    ensures forall i :: 0 <= i < hi - lo - 1 ==> !SpacePairAt(s[lo..hi], i)
  {
    var t := s[lo..hi];
    forall i | 0 <= i < hi - lo ensures IsKeyChar(t[i]) {
      assert t[i] == s[lo + i];
    }
    forall i | 0 <= i < hi - lo - 1 ensures !SpacePairAt(t, i) {
      assert SpacePairAt(t, i) == SpacePairAt(s, lo + i);
    }
  }

  // ---------------------------------------------------------------------------
  // Properties of the key
  // ---------------------------------------------------------------------------

  /** A well-formed key passes through every step unchanged. */
  lemma NormalizeFixesKeys(k: string)
    requires IsKey(k)
    ensures Normalize(k) == k
  {
    ConcatMapFixed(DecomposeChar, k);
    ConcatMapFixed(LowerChar, k);
    ConcatMapFixed(ExpandAmpersand, k);
    ConcatMapFixed(KeepKeyChar, k);
    assert Collapsed(k);
    CollapseFixed(k);
    StripSpec(k);
  }

  /** Normalising a key again changes nothing. */
  lemma NormalizeIdempotent(title: string)
    ensures Normalize(Normalize(title)) == Normalize(title)
  {
    NormalizeFixesKeys(Normalize(title));
  }

  lemma {:induction false} CollapseFixed(s: string)
    requires Collapsed(s)
    ensures CollapseWhitespace(s) == s
    decreases |s|
  {
    if s != [] {
      forall i | 0 <= i < |s| - 2 ensures !SpacePairAt(s[1..], i) {
        assert SpacePairAt(s[1..], i) == SpacePairAt(s, i + 1);
      }
      CollapseFixed(s[1..]);
      if IsSpace(s[0]) && |s| > 1 {
        assert !SpacePairAt(s, 0);
        assert LeadingSpaces(s[1..]) == 0;
      }
    }
  }

  /** The key characters of a title, before whitespace is collapsed and stripped. */
  function KeyChars(s: string): string {
    KeepKeyChars(ReplaceAmpersand(Lower(Decompose(s))))
  }

  lemma KeyCharsAppend(a: string, b: string)
    ensures KeyChars(a + b) == KeyChars(a) + KeyChars(b)
  {
    ConcatMapAppend(DecomposeChar, a, b);
    ConcatMapAppend(LowerChar, Decompose(a), Decompose(b));
    ConcatMapAppend(ExpandAmpersand, Lower(Decompose(a)), Lower(Decompose(b)));
    ConcatMapAppend(KeepKeyChar, ReplaceAmpersand(Lower(Decompose(a))), ReplaceAmpersand(Lower(Decompose(b))));
  }

  /** Replacing a piece of a title by one with the same key characters keeps the key. */
  lemma SameKeyCharsSameKey(before: string, x: string, y: string, after: string)
    requires KeyChars(x) == KeyChars(y)
    ensures Normalize(before + x + after) == Normalize(before + y + after)
  {
    KeyCharsAppend(before, x);
    KeyCharsAppend(before + x, after);
    KeyCharsAppend(before, y);
    KeyCharsAppend(before + y, after);
  }

  /** Text made of key characters is its own key-character string. */
  lemma KeyCharsOfKeyText(s: string)
    requires forall i :: 0 <= i < |s| ==> IsKeyChar(s[i])
    ensures KeyChars(s) == s
  {
    ConcatMapFixed(DecomposeChar, s);
    ConcatMapFixed(LowerChar, s);
    ConcatMapFixed(ExpandAmpersand, s);
    ConcatMapFixed(KeepKeyChar, s);
  }

  lemma ConcatMapSingle(f: char -> string, c: char)
    ensures ConcatMap(f, [c]) == f(c)
  {
    assert [c][1..] == [];
  }

  /** "Fast & Furious" and "Fast and Furious" share a key: `&` counts as the word `and`. */
  lemma AmpersandIsAnd(before: string, after: string)
    ensures Normalize(before + "&" + after) == Normalize(before + "and" + after)
  {
    ConcatMapSingle(DecomposeChar, '&');
    assert Decompose("&") == "&";
    ConcatMapSingle(LowerChar, '&');
    assert Lower("&") == "&";
    ConcatMapSingle(ExpandAmpersand, '&');
    assert ReplaceAmpersand("&") == "and";
    ConcatMapFixed(KeepKeyChar, "and");
    KeyCharsOfKeyText("and");
    SameKeyCharsSameKey(before, "&", "and", after);
  }

  /** An accented letter counts as its base letter: U+00E9 (e with acute) keys as `e`. */
  lemma AccentIgnored(before: string, after: string)
    ensures Normalize(before + "\U{E9}" + after) == Normalize(before + "e" + after)
  {
    ConcatMapSingle(DecomposeChar, '\U{E9}');
    var d := "e\U{301}";
    assert Decompose("\U{E9}") == d;
    assert d == ['e'] + ['\U{301}'];
    ConcatMapAppend(LowerChar, ['e'], ['\U{301}']);
    ConcatMapSingle(LowerChar, 'e');
    ConcatMapSingle(LowerChar, '\U{301}');
    ConcatMapAppend(ExpandAmpersand, ['e'], ['\U{301}']);
    ConcatMapSingle(ExpandAmpersand, 'e');
    ConcatMapSingle(ExpandAmpersand, '\U{301}');
    ConcatMapAppend(KeepKeyChar, ['e'], ['\U{301}']);
    ConcatMapSingle(KeepKeyChar, 'e');
    ConcatMapSingle(KeepKeyChar, '\U{301}');
    KeyCharsOfKeyText("e");
    SameKeyCharsSameKey(before, "\U{E9}", "e", after);
  }

  function UpperChar(c: char): string {
    if 'a' <= c <= 'z' then [(c as int - 32) as char] else [c]
  }

  /** Upper-cases the ASCII letters of `s`. */
  function UpperAscii(s: string): string {
    ConcatMap(UpperChar, s)
  }

  lemma KeyCharsIgnoreCaseChar(c: char)
    ensures KeyChars(UpperChar(c)) == KeyChars([c])
  {
    if 'a' <= c <= 'z' {
      var up := (c as int - 32) as char;
      ConcatMapSingle(DecomposeChar, up);
      ConcatMapSingle(DecomposeChar, c);
      assert Decompose([up]) == [up];
      assert Decompose([c]) == [c];
      ConcatMapSingle(LowerChar, up);
      ConcatMapSingle(LowerChar, c);
      assert Lower([up]) == [c] == Lower([c]);
    }
  }

  lemma {:induction false} KeyCharsIgnoreCase(s: string)
    ensures KeyChars(UpperAscii(s)) == KeyChars(s)
    decreases |s|
  {
    if s != [] {
      var c := s[0];
      assert s == [c] + s[1..];
      assert UpperAscii(s) == UpperChar(c) + UpperAscii(s[1..]);
      KeyCharsAppend(UpperChar(c), UpperAscii(s[1..]));
      KeyCharsAppend([c], s[1..]);
      KeyCharsIgnoreCase(s[1..]);
      KeyCharsIgnoreCaseChar(c);
    }
  }

  /**
   * Collapsing and stripping touch only whitespace: the key holds exactly the
   * key characters of the title other than spaces, in order.
   */
  lemma NormalizeKeepsKeyChars(title: string)
    ensures NonSpace(Normalize(title)) == NonSpace(KeyChars(title))
  {
    var kept := KeyChars(title);
    CollapseKeepsNonSpace(kept);
    StripKeepsNonSpace(CollapseWhitespace(kept));
  }

  /** Upper- and lower-case spellings of a title share a key. */
  lemma NormalizeIgnoresCase(before: string, x: string, after: string)
    ensures Normalize(before + UpperAscii(x) + after) == Normalize(before + x + after)
  {
    KeyCharsIgnoreCase(x);
    SameKeyCharsSameKey(before, UpperAscii(x), x, after);
  }
}
