/**
 * The per-link label processing of `extract_table_of_contents`: the dot-leader
 * cleaning `clean_text`, the Section/Subject classification and
 * `remove_section_prefix`, each of which is one regular-expression call or one
 * expression in the source (main.py:147-153).
 */
module Labels {
  import opened Text

  datatype EntryType = Section | Subject

  /** No two dots in a row: `".." not in s`. */
  predicate NoDoubleDot(s: string) {
    forall i :: 0 <= i < |s| - 1 ==> !(s[i] == '.' && s[i + 1] == '.')
  }

  /** `s` holds no line break. */
  predicate OneLine(s: string) {
    forall i :: 0 <= i < |s| ==> s[i] != '\n'
  }

  // ---------------------------------------------------------------------------
  // clean_text: re.sub(r'\.{2,}.*', '', txt).strip()

  /** The index of the first line break in `s` at or after `i`, or `|s|` when there is none. */
  function LineBreakFrom(s: string, i: nat): (j: nat)
    requires i <= |s|
    ensures i <= j <= |s|
    ensures forall k :: i <= k < j ==> s[k] != '\n'
    ensures j == |s| || s[j] == '\n'
    decreases |s| - i
  {
    if i == |s| || s[i] == '\n' then i else LineBreakFrom(s, i + 1)
  }

  /** The search for a line break from `i` stops at `j` when none comes before it and `j` is one or the end. */
  lemma LineBreakIs(s: string, i: nat, j: nat)
    requires i <= j <= |s|
    requires forall k :: i <= k < j ==> s[k] != '\n'
    requires j == |s| || s[j] == '\n'
    ensures LineBreakFrom(s, i) == j
  {
  }

  /** The rest of `s` from its first line break on (the `'\n'` included), or `""` if it has none. */
  function FromLineBreak(s: string): (r: string)
    ensures r == [] || r[0] == '\n'
  {
    s[LineBreakFrom(s, 0)..]
  }

  /**
   * The substitution `re.sub(r'\.{2,}.*', '', s)`: `.` does not match a line
   * break, so on every line the first run of two or more dots is deleted
   * together with the rest of that line, and the line break itself is kept.
   */
  function CutLeaders(s: string): (r: string)
    ensures |r| <= |s|
    ensures NoDoubleDot(r)
    ensures NoDoubleDot(s) ==> r == s
    ensures r != [] ==> r[0] == s[0] || r[0] == '\n'
    ensures OneLine(s) ==> r == s[..|r|]
    ensures OneLine(s) && |r| < |s| ==> |r| + 2 <= |s| && s[|r|] == '.' && s[|r| + 1] == '.' && (r != [] ==> s[|r| - 1] != '.')
    decreases |s|
  {
    if s == [] then []
    else if |s| >= 2 && s[0] == '.' && s[1] == '.' then CutLeaders(FromLineBreak(s))
    else
      var rest := CutLeaders(s[1..]);
      assert s[0] == '.' && rest != [] ==> rest[0] != '.';
      assert OneLine(s) ==> OneLine(s[1..]);
      assert OneLine(s) && rest == [] && 1 < |s| ==> s[0] != '.';
      [s[0]] + rest
  }

  /** `clean_text` (main.py:147-148). */
  function CleanText(s: string): (r: string)
    ensures NoDoubleDot(r)
    ensures IsStripped(r)
    ensures NoDoubleDot(s) ==> r == Strip(s)
  {
    var c := CutLeaders(s);
    StripInside(c);
    NoDoubleDotInside(c, Strip(c), SpaceRunEnd(c, 0));
    Strip(c)
  }

  lemma NoDoubleDotInside(s: string, t: string, i: int)
    requires NoDoubleDot(s) && OccursAt(s, t, i)
    ensures NoDoubleDot(t)
  {
    forall k | 0 <= k < |t| - 1 ensures !(t[k] == '.' && t[k + 1] == '.') {
      assert t[k] == s[i + k] && t[k + 1] == s[i + k + 1];
    }
  }

  /** Cleaning works line by line: a line break splits the substitution in two. */
  lemma CutLeadersLineByLine(a: string, b: string)
    requires OneLine(a)
    ensures CutLeaders(a + "\n" + b) == CutLeaders(a) + "\n" + CutLeaders(b)
  {
    var nb := "\n" + b;
    assert nb[0] == '\n' && nb[1..] == b;
    assert CutLeaders(nb) == [nb[0]] + CutLeaders(nb[1..]);
    assert a + "\n" + b == a + nb;
    SplitAtBreak(a, nb);
    SeqAssoc(CutLeaders(a), "\n", CutLeaders(b));
  }

  lemma {:induction false} SplitAtBreak(a: string, nb: string)
    requires OneLine(a)
    requires nb != [] && nb[0] == '\n'
    ensures CutLeaders(a + nb) == CutLeaders(a) + CutLeaders(nb)
    decreases |a|
  {
    if a == [] {
      assert a + nb == nb;
    } else if |a| >= 2 && a[0] == '.' && a[1] == '.' {
      LeaderLine(a, nb);
    } else {
      var t := a[1..];
      assert OneLine(t) by {
        forall i | 0 <= i < |t| ensures t[i] != '\n' {
          assert t[i] == a[i + 1];
        }
      }
      SplitAtBreak(t, nb);
      CopyFirst(a, nb);
      SeqAssoc([a[0]], CutLeaders(t), CutLeaders(nb));
    }
  }

  /** A line that starts with a dot leader is dropped up to its line break. */
  lemma LeaderLine(a: string, nb: string)
    requires OneLine(a) && |a| >= 2 && a[0] == '.' && a[1] == '.'
    requires nb != [] && nb[0] == '\n'
    ensures CutLeaders(a + nb) == CutLeaders(a) + CutLeaders(nb)
  {
    var s := a + nb;
    assert CutLeaders(a) == [] by {
      assert FromLineBreak(a) == [];
    }
    assert CutLeaders(s) == CutLeaders(nb) by {
      assert s[0] == '.' && s[1] == '.';
      FromLineBreakPast(a, nb);
      assert FromLineBreak(s) == nb;
    }
  }

  /** A line that does not start with a dot leader keeps its first character. */
  lemma CopyFirst(a: string, nb: string)
    requires a != [] && !(|a| >= 2 && a[0] == '.' && a[1] == '.')
    requires nb != [] && nb[0] == '\n'
    ensures CutLeaders(a + nb) == [a[0]] + CutLeaders(a[1..] + nb)
    ensures CutLeaders(a) == [a[0]] + CutLeaders(a[1..])
  {
    var s := a + nb;
    assert s[0] == a[0] && s[1] == (if |a| >= 2 then a[1] else '\n');
    assert s[1..] == a[1..] + nb;
  }

  lemma FromLineBreakPast(a: string, b: string)
    requires OneLine(a)
    ensures FromLineBreak(a + b) == FromLineBreak(b)
  {
    var j := LineBreakFrom(b, 0);
    var s := a + b;
    forall k | 0 <= k < |a| + j
      ensures s[k] != '\n'
    {
      if k >= |a| {
        assert s[k] == b[k - |a|];
      }
    }
    LineBreakIs(s, 0, |a| + j);
    assert s[|a| + j..] == b[j..];
  }

  /** Cleaning an already cleaned label changes nothing. */
  lemma {:induction false} CleanTextIdempotent(s: string)
    ensures CleanText(CleanText(s)) == CleanText(s)
  {
    var r := CleanText(s);
    assert CutLeaders(r) == r;
    assert Strip(r) == r;
  }

  // ---------------------------------------------------------------------------
  // Classification (main.py:150)

  /**
   * `"Section" if "SECTION" in x.upper() else "Subject"`: the test is a
   * substring test, so an upper-case "SECTION" anywhere, even inside a word,
   * makes a Section.
   */
  function Classify(text: string): (k: EntryType)
    ensures Contains(text, "SECTION") ==> k == Section
  {
    UpperKeepsSection(text);
    if Contains(Upper(text), "SECTION") then Section else Subject
  }

  lemma UpperKeepsSection(text: string)
    ensures Contains(text, "SECTION") ==> Contains(Upper(text), "SECTION")
  {
    if Contains(text, "SECTION") {
      var i := ContainsOccurs(text, "SECTION");
      UpperKeepsOccurrence(text, "SECTION", i);
      OccursContains(Upper(text), "SECTION", i);
    }
  }

  /** A heading that merely contains the word, such as "INTERSECTION", is a Section. */
  lemma IntersectionIsSection()
    ensures Classify("INTERSECTION") == Section
  {
    var s := "INTERSECTION";
    assert OccursAt(s, "SECTION", 5) by {
      assert s[5..12] == "SECTION";
    }
    OccursContains(s, "SECTION", 5);
  }

  // ---------------------------------------------------------------------------
  // remove_section_prefix: re.sub(r'^SECTION\s*[IVXLCD]+\s*:?', '', txt, flags=re.IGNORECASE).strip()

  /** A letter of the character class `[IVXLCD]` under `re.IGNORECASE`. */
  predicate IsRomanLetter(c: char) {
    UpperChar(c) in "IVXLCD"
  }

  /** The end of the run of roman-numeral letters (`[IVXLCD]*`, greedy) starting at `i`. */
  function RomanRunEnd(s: string, i: nat): (j: nat)
    requires i <= |s|
    ensures i <= j <= |s|
    ensures forall k :: i <= k < j ==> IsRomanLetter(s[k])
    ensures j == |s| || !IsRomanLetter(s[j])
    decreases |s| - i
  {
    if i < |s| && IsRomanLetter(s[i]) then RomanRunEnd(s, i + 1) else i
  }

  /** The numeral run from `i` ends at `j` when the characters in between are numeral letters and the one at `j` is not. */
  lemma RomanRunIs(s: string, i: nat, j: nat)
    requires i <= j <= |s|
    requires forall k :: i <= k < j ==> IsRomanLetter(s[k])
    requires j == |s| || !IsRomanLetter(s[j])
    ensures RomanRunEnd(s, i) == j
  {
  }

  /**
   * The length of the match of `^SECTION\s*[IVXLCD]+\s*:?` (ignoring case)
   * at the start of `s`, or 0 when the pattern does not match. Every part
   * after the required roman numeral can match empty, so the greedy match
   * never backtracks.
   */
  function SectionPrefixLength(s: string): (n: nat)
    ensures n <= |s|
    ensures n > 0 ==> 7 < n && Upper(s[..7]) == "SECTION"
    ensures n > 0 ==> forall k :: 7 <= k < n ==> IsSpace(s[k]) || IsRomanLetter(s[k]) || (k == n - 1 && s[k] == ':')
    ensures n > 0 <==> |s| >= 7 && Upper(s[..7]) == "SECTION" && SpaceRunEnd(s, 7) < |s| && IsRomanLetter(s[SpaceRunEnd(s, 7)])
  {
    if |s| < 7 || Upper(s[..7]) != "SECTION" then 0
    else
      var j1 := SpaceRunEnd(s, 7);
      var j2 := RomanRunEnd(s, j1);
      if j2 == j1 then 0
      else
        var j3 := SpaceRunEnd(s, j2);
        if j3 < |s| && s[j3] == ':' then j3 + 1 else j3
  }

  /** `remove_section_prefix` (main.py:151-152). */
  function RemoveSectionPrefix(s: string): (r: string)
    ensures IsStripped(r)
    ensures |r| <= |s|
    ensures SectionPrefixLength(s) == 0 ==> r == Strip(s)
  {
    assert s[0..] == s;
    Strip(s[SectionPrefixLength(s)..])
  }

  /**
   * Where the match of the prefix pattern ends, for every label it matches:
   * after "SECTION" in any case come white space up to `j1`, numeral letters
   * up to `j2` and white space up to `j3`, each run as long as it can be;
   * the match takes them all and a colon right after them. What is left,
   * stripped, is the label without its prefix.
   */
  lemma SectionPrefixIs(s: string, j1: nat, j2: nat, j3: nat)
    requires 7 <= j1 < j2 <= j3 <= |s|
    requires Upper(s[..7]) == "SECTION"
    requires forall k :: 7 <= k < j1 ==> IsSpace(s[k])
    requires forall k :: j1 <= k < j2 ==> IsRomanLetter(s[k])
    requires j2 == |s| || !IsRomanLetter(s[j2])
    requires forall k :: j2 <= k < j3 ==> IsSpace(s[k])
    requires j3 == |s| || !IsSpace(s[j3])
    ensures SectionPrefixLength(s) == if j3 < |s| && s[j3] == ':' then j3 + 1 else j3
    ensures RemoveSectionPrefix(s) == Strip(s[(if j3 < |s| && s[j3] == ':' then j3 + 1 else j3)..])
  {
    SpaceRunIs(s, 7, j1);
    RomanRunIs(s, j1, j2);
    SpaceRunIs(s, j2, j3);
  }

  /** A label that does not mention SECTION in any case keeps its text, once stripped. */
  lemma SubjectLabelUnchanged(s: string)
    requires !Contains(Upper(s), "SECTION")
    requires IsStripped(s)
    ensures RemoveSectionPrefix(s) == s
  {
    assert s[0..] == s;
  }

  /** A Subject row's `cleaned_subject` equals its label (main.py:150-153). */
  lemma SubjectCleanedIsLabel(raw: string)
    requires Classify(CleanText(raw)) == Subject
    ensures RemoveSectionPrefix(CleanText(raw)) == CleanText(raw)
  {
    SubjectLabelUnchanged(CleanText(raw));
  }

  /** A label the prefix pattern matches is always classified as a Section. */
  lemma PrefixedLabelIsSection(s: string)
    requires SectionPrefixLength(s) > 0
    ensures Classify(s) == Section
  {
    assert Upper(s)[..7] == Upper(s[..7]);
    assert StartsWith(Upper(s), "SECTION");
  }

  /** A typical heading: the word, the numeral, the colon and the spaces go. */
  lemma SectionNumeralRemoved(s: string)
    requires s == "SECTION I: GENERAL"
    ensures RemoveSectionPrefix(s) == "GENERAL"
  {
    PrefixLengthGeneral(s);
    var t := s[10..];
    assert t[0] == ' ' && t[1..] == "GENERAL";
    SpaceRunIs(t, 0, 1);
    assert IsStripped(t[1..]);
  }

  lemma PrefixLengthGeneral(s: string)
    requires s == "SECTION I: GENERAL"
    ensures SectionPrefixLength(s) == 10
  {
    assert s[..7] == "SECTION";
    assert s[7] == ' ' && IsRomanLetter(s[8]) && !IsRomanLetter(s[9]) && !IsSpace(s[9]);
    SpaceRunIs(s, 7, 8);
    RomanRunIs(s, 8, 9);
    SpaceRunIs(s, 9, 9);
  }

  /**
   * As written, the numeral class also eats the first letters of a heading
   * that starts with one of I V X L C D: "SECTION DEFINITIONS" loses its "D".
   */
  lemma SectionWordEatenByNumeralClass(s: string)
    requires s == "SECTION DEFINITIONS"
    ensures RemoveSectionPrefix(s) == "EFINITIONS"
  {
    PrefixLengthDefinitions(s);
    assert s[9..] == "EFINITIONS";
    assert IsStripped(s[9..]);
  }

  lemma PrefixLengthDefinitions(s: string)
    requires s == "SECTION DEFINITIONS"
    ensures SectionPrefixLength(s) == 9
  {
    assert s[..7] == "SECTION";
    assert s[7] == ' ' && IsRomanLetter(s[8]) && !IsRomanLetter(s[9]) && !IsSpace(s[9]);
    SpaceRunIs(s, 7, 8);
    RomanRunIs(s, 8, 9);
    SpaceRunIs(s, 9, 9);
  }

  /** Case is ignored: a lower-case prefix and numeral are removed too. */
  lemma LowerCasePrefixRemoved(s: string)
    requires s == "Section iv  Risk Factors"
    ensures RemoveSectionPrefix(s) == "Risk Factors"
  {
    PrefixLengthRiskFactors(s);
    assert s[12..] == "Risk Factors";
    assert IsStripped(s[12..]);
  }

  lemma UpperSectionWord(w: string)
    requires w == "Section"
    ensures Upper(w) == "SECTION"
  {
    assert UpperChar('S') == 'S' && UpperChar('e') == 'E' && UpperChar('c') == 'C' && UpperChar('t') == 'T';
    assert UpperChar('i') == 'I' && UpperChar('o') == 'O' && UpperChar('n') == 'N';
  }

  lemma PrefixLengthRiskFactors(s: string)
    requires s == "Section iv  Risk Factors"
    ensures SectionPrefixLength(s) == 12
  {
    assert Upper(s[..7]) == "SECTION" by {
      UpperSectionWord(s[..7]);
    }
    assert SpaceRunEnd(s, 7) == 8;
    assert s[7] == ' ' && s[8] == 'i' && s[9] == 'v' && s[10] == ' ' && s[11] == ' ' && s[12] == 'R';
    SpaceRunIs(s, 7, 8);
    RomanRunIs(s, 8, 10);
    SpaceRunIs(s, 10, 12);
  }

}
