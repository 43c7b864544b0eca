/**
 * The rules the selection screen of `main` applies to the outline
 * (main.py:338-440): the parent/child mapping between the checkbox of a
 * Section and those of its Subjects, the indentation of each row, the two
 * checkbox callbacks, the list of selected rows and the name of each
 * exported file. The widgets themselves are not modelled; the session state
 * is a map from row index to checkbox value, the index standing for the key
 * `f"toc_{idx}"`.
 */
module Selection {
  import opened Wrappers
  import opened Text
  import opened Labels
  import opened Outline

  // ---------------------------------------------------------------------------
  // get_indent_level (main.py:367-373)

  /** The end of the run of decimal digits starting at `i`. */
  function DigitRunEnd(s: string, i: nat): (j: nat)
    requires i <= |s|
    ensures i <= j <= |s|
    ensures forall k :: i <= k < j ==> IsDigit(s[k])
    ensures j == |s| || !IsDigit(s[j])
    decreases |s| - i
  {
    if i < |s| && IsDigit(s[i]) then DigitRunEnd(s, i + 1) else i
  }

  /** Inside a numbering that ends at `j`, position `k` holds a digit or a dot followed by a digit. */
  predicate NumberingChar(s: string, k: nat, j: nat)
    requires k < j <= |s|
  {
    IsDigit(s[k]) || (s[k] == '.' && k + 1 < j && IsDigit(s[k + 1]))
  }

  /**
   * The end of the repetition `(\.\d+)*` starting at `i`: dot-number groups
   * as long as a dot is followed by a digit.
   */
  function GroupsEnd(s: string, i: nat): (j: nat)
    requires i <= |s|
    ensures i <= j <= |s|
    ensures j > i ==> s[i] == '.' && IsDigit(s[j - 1])
    ensures forall k :: i <= k < j ==> NumberingChar(s, k, j)
    ensures j == |s| || !(s[j] == '.' && j + 1 < |s| && IsDigit(s[j + 1]))
    ensures j > i ==> j == |s| || !IsDigit(s[j])
    ensures j == i <==> !(i + 1 < |s| && s[i] == '.' && IsDigit(s[i + 1]))
    decreases |s| - i
  {
    if i + 1 < |s| && s[i] == '.' && IsDigit(s[i + 1]) then
      var d := DigitRunEnd(s, i + 1);
      var j := GroupsEnd(s, d);
      assert i + 1 < d <= j;
      assert forall k :: i < k < d ==> IsDigit(s[k]);
      j
    else i
  }

  /** A dot at `d` with a digit after it: where a group of a numbering starts. */
  predicate DotThenDigit(s: string, d: nat) {
    d + 1 < |s| && s[d] == '.' && IsDigit(s[d + 1])
  }

  /** `s` starts with digits, a dot and a digit: the least `^\d+(\.\d+)+` asks for. */
  ghost predicate OpensNumbering(s: string) {
    exists d :: 0 < d && DotThenDigit(s, d) && forall k :: 0 <= k < d ==> IsDigit(s[k])
  }

  /**
   * The length of the match of `^(\d+(\.\d+)+)` at the start of `s`, or 0
   * when it does not match. The digit runs are greedy and a group can only
   * start at a dot, so the match never backtracks.
   */
  function NumberingLength(s: string): (n: nat)
    ensures n <= |s|
    ensures n > 0 ==> IsDigit(s[0]) && IsDigit(s[n - 1]) && '.' in s[..n]
    ensures n > 0 ==> forall k :: 0 <= k < n ==> NumberingChar(s, k, n)
    ensures n > 0 ==> n == |s| || !(IsDigit(s[n]) || (s[n] == '.' && n + 1 < |s| && IsDigit(s[n + 1])))
    ensures n > 0 <==> OpensNumbering(s)
  {
    var d := DigitRunEnd(s, 0);
    OpensAtDigitRunEnd(s);
    if d == 0 then 0
    else
      var e := GroupsEnd(s, d);
      if e == d then 0
      else
        assert s[..e][d] == '.';
        assert forall k :: 0 <= k < d ==> IsDigit(s[k]);
        e
  }

  /** The only dot that can open a numbering is the one right after the leading digits. */
  lemma OpensAtDigitRunEnd(s: string)
    ensures OpensNumbering(s) <==> DigitRunEnd(s, 0) > 0 && DotThenDigit(s, DigitRunEnd(s, 0))
  {
    var d := DigitRunEnd(s, 0);
    if OpensNumbering(s) {
      var d' :| 0 < d' && DotThenDigit(s, d') && forall k :: 0 <= k < d' ==> IsDigit(s[k]);
      assert d' == d;
    }
    if d > 0 && DotThenDigit(s, d) {
      assert forall k :: 0 <= k < d ==> IsDigit(s[k]);
    }
  }

  /** `s.count(c)` */
  function CountOf(s: string, c: char): (n: nat)
    ensures n <= |s|
    ensures c in s ==> n > 0
    ensures n == multiset(s)[c]
  {
    if s == [] then 0
    else
      assert c in s && s[0] != c ==> c in s[1..];
      assert s == [s[0]] + s[1..];
      (if s[0] == c then 1 else 0) + CountOf(s[1..], c)
  }

  /**
   * `get_indent_level`: 0 for a Section; for a Subject, the number of dots in
   * a leading dotted numbering such as "1.1" or "1.1.1", or 1 without one.
   */
  function IndentLevel(kind: EntryType, cleanedSubject: string): (level: nat)
    ensures level == 0 <==> kind == Section
    ensures kind == Subject ==>
      level == (if NumberingLength(cleanedSubject) > 0 then multiset(cleanedSubject[..NumberingLength(cleanedSubject)])['.'] else 1)
  {
    if kind == Section then 0
    else
      var n := NumberingLength(cleanedSubject);
      if n > 0 then CountOf(cleanedSubject[..n], '.') else 1
  }

  lemma TwoPartNumbering(s: string)
    requires s == "1.2 Risks"
    ensures IndentLevel(Subject, s) == 1
  {
    assert DigitRunEnd(s, 0) == 1 by {
      assert DigitRunEnd(s, 1) == 1;
    }
    assert GroupsEnd(s, 1) == 3 by {
      assert DigitRunEnd(s, 3) == 3;
      assert DigitRunEnd(s, 2) == 3;
      assert GroupsEnd(s, 3) == 3;
    }
    assert NumberingLength(s) == 3;
    assert s[..3] == ['1'] + ['.'] + ['2'];
  }

  lemma ThreePartNumbering(s: string)
    requires s == "1.1.1 Objects"
    ensures IndentLevel(Subject, s) == 2
  {
    assert DigitRunEnd(s, 0) == 1 by {
      assert DigitRunEnd(s, 1) == 1;
    }
    assert GroupsEnd(s, 1) == 5 by {
      assert DigitRunEnd(s, 5) == 5;
      assert DigitRunEnd(s, 4) == 5;
      assert GroupsEnd(s, 5) == 5;
      assert DigitRunEnd(s, 3) == 3;
      assert DigitRunEnd(s, 2) == 3;
      assert GroupsEnd(s, 3) == 5;
    }
    assert NumberingLength(s) == 5;
    assert s[..5] == ['1'] + ['.'] + ['1'] + ['.'] + ['1'];
  }

  /** A number followed by a dot and no further digit is not a numbering: the level is the default. */
  lemma TrailingDotIsNoNumbering(s: string)
    requires s == "1. Introduction"
    ensures IndentLevel(Subject, s) == 1
  {
    assert DigitRunEnd(s, 0) == 1 by {
      assert DigitRunEnd(s, 1) == 1;
    }
    assert !DotThenDigit(s, 1);
    OpensAtDigitRunEnd(s);
    assert NumberingLength(s) == 0;
  }

  // ---------------------------------------------------------------------------
  // The parent/child mapping (main.py:348-358)

  /** The Subjects among the first `k` rows whose section is row `p`, in row order. */
  function ChildrenOf(kinds: seq<EntryType>, p: nat, k: nat): (r: seq<nat>)
    requires k <= |kinds|
    ensures forall c: nat {:trigger c in r} :: c in r <==> c < k && kinds[c] == Subject && LastSectionBefore(kinds, c + 1) == Some(p)
  {
    if k == 0 then []
    else ChildrenOf(kinds, p, k - 1) + (if kinds[k - 1] == Subject && LastSectionBefore(kinds, k) == Some(p) then [k - 1] else [])
  }

  /** The Subjects of a section are listed in row order. */
  lemma {:induction false} ChildrenInOrder(kinds: seq<EntryType>, p: nat, k: nat)
    requires k <= |kinds|
    ensures var r := ChildrenOf(kinds, p, k);
      forall s, t :: 0 <= s < t < |r| ==> r[s] < r[t]
  {
    if k > 0 {
      ChildrenInOrder(kinds, p, k - 1);
      ChildrenStep(kinds, p, k - 1);
      var r := ChildrenOf(kinds, p, k - 1);
      assert forall s :: 0 <= s < |r| ==> r[s] in r;
      assert forall s :: 0 <= s < |r| ==> r[s] < k - 1;
    }
  }

  /** One more row adds itself to its section's list and changes no other list. */
  lemma ChildrenStep(kinds: seq<EntryType>, q: nat, k: nat)
    requires k < |kinds|
    ensures ChildrenOf(kinds, q, k + 1) ==
      ChildrenOf(kinds, q, k) + (if kinds[k] == Subject && LastSectionBefore(kinds, k + 1) == Some(q) then [k] else [])
  {
  }

  /** The keys of `mapping` after the rows before `k`: the Sections and the Subjects before the first Section. */
  ghost predicate KeysUpTo(kinds: seq<EntryType>, k: nat, mapping: map<nat, seq<nat>>)
    requires k <= |kinds|
  {
    forall q: nat {:trigger q in mapping} :: q in mapping <==> q < k && (kinds[q] == Section || LastSectionBefore(kinds, q + 1).None?)
  }

  /** The lists of `mapping` after the rows before `k`: each key with its Subjects so far. */
  ghost predicate ListsUpTo(kinds: seq<EntryType>, k: nat, mapping: map<nat, seq<nat>>)
    requires k <= |kinds|
  {
    forall q :: q in mapping ==> mapping[q] == ChildrenOf(kinds, q, k)
  }

  /** `child2parent` after the rows before `k`: every Subject with a Section points to it. */
  ghost predicate ParentsUpTo(kinds: seq<EntryType>, k: nat, childToParent: map<nat, nat>)
    requires k <= |kinds|
  {
    (forall c: nat {:trigger c in childToParent} :: c in childToParent <==> c < k && kinds[c] == Subject && LastSectionBefore(kinds, c + 1).Some?) &&
    forall c :: c in childToParent ==> LastSectionBefore(kinds, c + 1) == Some(childToParent[c])
  }

  /**
   * The loop that fills `mapping` and `child2parent` over the rows of the
   * sorted outline, given their types in that order: a Section maps to its
   * Subjects, a Subject before the first Section maps to nothing, and every
   * other Subject points back to its Section.
   */
  method BuildMapping(kinds: seq<EntryType>) returns (mapping: map<nat, seq<nat>>, childToParent: map<nat, nat>)
    ensures forall q: nat {:trigger q in mapping} :: q in mapping <==> q < |kinds| && (kinds[q] == Section || LastSectionBefore(kinds, q + 1).None?)
    ensures forall q :: q in mapping ==> mapping[q] == ChildrenOf(kinds, q, |kinds|)
    ensures forall c: nat {:trigger c in childToParent} :: c in childToParent <==> c < |kinds| && kinds[c] == Subject && LastSectionBefore(kinds, c + 1).Some?
    ensures forall c :: c in childToParent ==> LastSectionBefore(kinds, c + 1) == Some(childToParent[c])
    ensures forall c :: c in childToParent ==> childToParent[c] in mapping && c in mapping[childToParent[c]]
  {
    mapping := map[];
    childToParent := map[];
    var currentParent: Option<nat> := None;
    for k := 0 to |kinds|
      invariant KeysUpTo(kinds, k, mapping)
      invariant ListsUpTo(kinds, k, mapping)
      invariant ParentsUpTo(kinds, k, childToParent)
      invariant currentParent == LastSectionBefore(kinds, k)
    {
      if kinds[k] == Section {
        currentParent := Some(k);
        KeysAdd(kinds, k, mapping);
        SectionListsStep(kinds, k, mapping);
        ParentsKeep(kinds, k, childToParent);
        mapping := mapping[k := []];
      } else if currentParent.Some? {
        var p := currentParent.value;
        KeysKeep(kinds, k, p, mapping);
        SubjectListsStep(kinds, k, p, mapping);
        ParentsAdd(kinds, k, p, childToParent);
        mapping := mapping[p := mapping[p] + [k]];
        childToParent := childToParent[k := p];
      } else {
        KeysAdd(kinds, k, mapping);
        OrphanListsStep(kinds, k, mapping);
        ParentsKeep(kinds, k, childToParent);
        mapping := mapping[k := []];
      }
    }
    forall c | c in childToParent
      ensures childToParent[c] in mapping && c in mapping[childToParent[c]]
    {
      var p := childToParent[c];
      assert LastSectionBefore(kinds, c + 1) == Some(p);
    }
  }

  /** A Section, or a Subject with no Section before it, becomes a key. */
  lemma KeysAdd(kinds: seq<EntryType>, k: nat, mapping: map<nat, seq<nat>>)
    requires k < |kinds| && KeysUpTo(kinds, k, mapping)
    requires kinds[k] == Section || LastSectionBefore(kinds, k).None?
    ensures KeysUpTo(kinds, k + 1, mapping[k := []])
  {
    assert kinds[k] == Section || LastSectionBefore(kinds, k + 1).None?;
  }

  /** A Subject under a Section adds no key. */
  lemma KeysKeep(kinds: seq<EntryType>, k: nat, p: nat, mapping: map<nat, seq<nat>>)
    requires k < |kinds| && KeysUpTo(kinds, k, mapping)
    requires kinds[k] == Subject && LastSectionBefore(kinds, k) == Some(p)
    ensures p in mapping && KeysUpTo(kinds, k + 1, mapping[p := mapping[p] + [k]])
  {
    assert LastSectionBefore(kinds, k + 1) == Some(p);
  }

  /** A Section or an orphan Subject adds no parent link. */
  lemma ParentsKeep(kinds: seq<EntryType>, k: nat, childToParent: map<nat, nat>)
    requires k < |kinds| && ParentsUpTo(kinds, k, childToParent)
    requires kinds[k] == Section || LastSectionBefore(kinds, k).None?
    ensures ParentsUpTo(kinds, k + 1, childToParent)
  {
    assert kinds[k] == Section || LastSectionBefore(kinds, k + 1).None?;
  }

  /** A Subject under a Section links to it. */
  lemma ParentsAdd(kinds: seq<EntryType>, k: nat, p: nat, childToParent: map<nat, nat>)
    requires k < |kinds| && ParentsUpTo(kinds, k, childToParent)
    requires kinds[k] == Subject && LastSectionBefore(kinds, k) == Some(p)
    ensures ParentsUpTo(kinds, k + 1, childToParent[k := p])
  {
    ParentsAddKeys(kinds, k, p, childToParent);
    ParentsAddValues(kinds, k, p, childToParent, childToParent[k := p]);
  }

  /** The keys after row `k`: those before it and `k` itself. */
  lemma ParentsAddKeys(kinds: seq<EntryType>, k: nat, p: nat, childToParent: map<nat, nat>)
    requires k < |kinds| && ParentsUpTo(kinds, k, childToParent)
    requires kinds[k] == Subject && LastSectionBefore(kinds, k) == Some(p)
    ensures forall c: nat {:trigger c in childToParent[k := p]} ::
      c in childToParent[k := p] <==> c < k + 1 && kinds[c] == Subject && LastSectionBefore(kinds, c + 1).Some?
  {
    var after := childToParent[k := p];
    assert LastSectionBefore(kinds, k + 1) == Some(p);
    forall c: nat
      ensures c in after <==> c < k + 1 && kinds[c] == Subject && LastSectionBefore(kinds, c + 1).Some?
    {
      if c != k {
        assert c in after <==> c in childToParent;
      }
    }
  }

  /** The values after row `k`: each key still maps to its section. */
  lemma ParentsAddValues(kinds: seq<EntryType>, k: nat, p: nat, childToParent: map<nat, nat>, after: map<nat, nat>)
    requires k < |kinds| && ParentsUpTo(kinds, k, childToParent)
    requires kinds[k] == Subject && LastSectionBefore(kinds, k) == Some(p)
    requires after == childToParent[k := p]
    ensures forall c :: c in after ==> LastSectionBefore(kinds, c + 1) == Some(after[c])
  {
    assert LastSectionBefore(kinds, k + 1) == Some(p);
    forall c | c in after
      ensures LastSectionBefore(kinds, c + 1) == Some(after[c])
    {
      if c != k {
        assert after[c] == childToParent[c];
      }
    }
  }

  lemma SectionListsStep(kinds: seq<EntryType>, k: nat, mapping: map<nat, seq<nat>>)
    requires k < |kinds| && kinds[k] == Section && ListsUpTo(kinds, k, mapping)
    ensures ListsUpTo(kinds, k + 1, mapping[k := []])
  {
    var after := mapping[k := []];
    forall q | q in after
      ensures after[q] == ChildrenOf(kinds, q, k + 1)
    {
      if q == k {
        NoChildrenYet(kinds, k, k + 1);
      } else {
        ChildrenStep(kinds, q, k);
      }
    }
  }

  lemma SubjectListsStep(kinds: seq<EntryType>, k: nat, p: nat, mapping: map<nat, seq<nat>>)
    requires k < |kinds| && kinds[k] == Subject && ListsUpTo(kinds, k, mapping) && KeysUpTo(kinds, k, mapping)
    requires LastSectionBefore(kinds, k) == Some(p)
    ensures p in mapping && ListsUpTo(kinds, k + 1, mapping[p := mapping[p] + [k]])
  {
    var after := mapping[p := mapping[p] + [k]];
    assert LastSectionBefore(kinds, k + 1) == Some(p);
    forall q | q in after
      ensures after[q] == ChildrenOf(kinds, q, k + 1)
    {
      ChildrenStep(kinds, q, k);
    }
  }

  lemma OrphanListsStep(kinds: seq<EntryType>, k: nat, mapping: map<nat, seq<nat>>)
    requires k < |kinds| && kinds[k] == Subject && ListsUpTo(kinds, k, mapping) && KeysUpTo(kinds, k, mapping)
    requires LastSectionBefore(kinds, k).None?
    ensures ListsUpTo(kinds, k + 1, mapping[k := []])
  {
    var after := mapping[k := []];
    forall q | q in after
      ensures after[q] == ChildrenOf(kinds, q, k + 1)
    {
      NoChildrenYet(kinds, q, k + 1);
      if q < k {
        NoChildrenYet(kinds, q, k);
      }
    }
  }

  /** No row lists itself or an earlier row, and a Subject lists none at all. */
  lemma {:induction false} NoChildrenYet(kinds: seq<EntryType>, p: nat, k: nat)
    requires k <= |kinds| && (k <= p + 1 || (p < |kinds| && kinds[p] == Subject))
    ensures ChildrenOf(kinds, p, k) == []
  {
    if k > 0 {
      NoChildrenYet(kinds, p, k - 1);
    }
  }

  /**
   * The Subjects of a Section are exactly the rows that follow it up to the
   * next Section, or to the end.
   */
  lemma ChildrenAreContiguous(kinds: seq<EntryType>, p: nat, c: nat)
    requires p < |kinds| && kinds[p] == Section && c < |kinds|
    ensures var m := FirstSectionAfter(kinds, p);
      c in ChildrenOf(kinds, p, |kinds|) <==> p < c && (m.None? || c < m.value)
  {
    var m := FirstSectionAfter(kinds, p);
    if p < c && (m.None? || c < m.value) {
      LastSectionIs(kinds, c + 1, p);
    }
  }

  // ---------------------------------------------------------------------------
  // The checkbox callbacks (main.py:255-264)

  /** `st.session_state.get(key, False)`: a checkbox never stored reads as unchecked. */
  function Get(state: map<nat, bool>, key: nat): (r: bool)
    ensures r <==> key in state && state[key]
  {
    if key in state then state[key] else false
  }

  /** The state after `on_parent_change`: every child takes the parent's value. */
  function WithChildren(state: map<nat, bool>, parent: nat, children: seq<nat>): (r: map<nat, bool>)
    requires parent in state
    ensures forall c :: c in children ==> c in r && r[c] == state[parent]
    ensures forall k :: k in state && k !in children ==> k in r && r[k] == state[k]
    ensures forall k :: k in r ==> k in state || k in children
  {
    state + map c | c in children :: state[parent]
  }

  /** The state after `on_child_change`: the parent is checked exactly when every child is, a missing child counting as unchecked. */
  function WithParentSynced(state: map<nat, bool>, parent: nat, children: seq<nat>): (r: map<nat, bool>)
    ensures parent in r && (r[parent] <==> forall c :: c in children ==> c in state && state[c])
    ensures forall k :: k in state && k != parent ==> k in r && r[k] == state[k]
    ensures forall k :: k in r ==> k in state || k == parent
  {
    state[parent := forall c :: c in children ==> Get(state, c)]
  }

  /**
   * A section's checkbox set by `on_parent_change` agrees with its children:
   * the synchronisation `on_child_change` performs right after it changes
   * nothing, whichever value the section was given.
   */
  lemma ParentChangeIsStable(state: map<nat, bool>, parent: nat, children: seq<nat>)
    requires parent in state && parent !in children && children != []
    ensures WithParentSynced(WithChildren(state, parent, children), parent, children) == WithChildren(state, parent, children)
  {
    var s := WithChildren(state, parent, children);
    assert s[parent] == state[parent];
    assert children[0] in children;
  }

  /** Unchecking any child unchecks its section. */
  lemma UncheckedChildClearsParent(state: map<nat, bool>, parent: nat, children: seq<nat>, c: nat)
    requires c in children && !Get(state, c)
    ensures !WithParentSynced(state, parent, children)[parent]
  {
  }

  /** `st.session_state` for the outline's checkboxes, under the callbacks that write into it. */
  class Session {
    var checked: map<nat, bool>

    constructor(initial: map<nat, bool>)
      ensures checked == initial
    {
      checked := initial;
    }

    /** `on_parent_change(parent_key, child_keys)` */
    method OnParentChange(parent: nat, children: seq<nat>)
      requires parent in checked
      modifies this
      ensures checked == WithChildren(old(checked), parent, children)
    {
      var newVal := checked[parent];
      ghost var before := checked;
      for t := 0 to |children|
        invariant parent in checked && checked[parent] == (if parent in children[..t] then newVal else before[parent])
        invariant checked == before + map c | c in children[..t] :: newVal
      {
        checked := checked[children[t] := newVal];
        assert children[..t + 1] == children[..t] + [children[t]];
      }
      assert children[..|children|] == children;
    }

    /** `on_child_change(parent_key, child_keys)` */
    method OnChildChange(parent: nat, children: seq<nat>)
      modifies this
      ensures checked == WithParentSynced(old(checked), parent, children)
    {
      if forall c :: c in children ==> Get(checked, c) {
        checked := checked[parent := true];
      } else {
        checked := checked[parent := false];
      }
    }
  }

  /** `final_selection`: the rows among the first `n` whose checkbox is checked, in row order (main.py:424). */
  function SelectedRows(state: map<nat, bool>, n: nat): (r: seq<nat>)
    ensures forall i: nat :: i in r <==> i < n && Get(state, i)
    ensures forall s, t :: 0 <= s < t < |r| ==> r[s] < r[t]
  {
    if n == 0 then []
    else
      var r := SelectedRows(state, n - 1);
      assert forall s :: 0 <= s < |r| ==> r[s] in r;
      r + (if Get(state, n - 1) then [n - 1] else [])
  }

  // ---------------------------------------------------------------------------
  // File names and page numbers of the export (main.py:426-438)

  /** At most this many characters of the cleaned subject go into a file name. */
  const NameLimit: nat := 50

  /** The characters the three `replace` calls remove: a space, `/` and `\`. */
  predicate IsUnsafe(c: char) {
    c == ' ' || c == '/' || c == '\\'
  }

  /** The three `replace` calls on one character: an unsafe one becomes `_`. */
  function SafeChar(c: char): char {
    if IsUnsafe(c) then '_' else c
  }

  /**
   * The exported file name of a row: its cleaned subject cut to 50
   * characters with the unsafe characters replaced, or `section_<start>` when
   * that is empty, followed by `.pdf`; `startPage` is 0-based.
   */
  function FileName(cleanedSubject: string, startPage: int): (name: string)
    ensures |name| > 4 && name[|name| - 4..] == ".pdf"
    ensures forall i :: 0 <= i < |name| ==> !IsUnsafe(name[i])
    ensures cleanedSubject != [] ==> |name| - 4 == (if |cleanedSubject| < NameLimit then |cleanedSubject| else NameLimit)
    ensures cleanedSubject != [] ==> forall i :: 0 <= i < |name| - 4 ==> name[i] == SafeChar(cleanedSubject[i])
  {
    var cut := if |cleanedSubject| < NameLimit then cleanedSubject else cleanedSubject[..NameLimit];
    var cleanSub := seq(|cut|, i requires 0 <= i < |cut| => SafeChar(cut[i]));
    var base := if cleanSub == [] then "section_" + IntText(startPage + 1) else cleanSub;
    base + ".pdf"
  }

  /** A short label without unsafe characters is the file name without its extension. */
  lemma SafeLabelIsFileName(cleanedSubject: string, startPage: int)
    requires 0 < |cleanedSubject| <= NameLimit
    requires forall i :: 0 <= i < |cleanedSubject| ==> !IsUnsafe(cleanedSubject[i])
    ensures FileName(cleanedSubject, startPage) == cleanedSubject + ".pdf"
  {
    var cut := if |cleanedSubject| < NameLimit then cleanedSubject else cleanedSubject[..NameLimit];
    assert cut == cleanedSubject;
    var cleanSub := seq(|cut|, i requires 0 <= i < |cut| => SafeChar(cut[i]));
    assert cleanSub == cleanedSubject;
  }

  /** A row with an empty label is named after its 1-based starting page, which its name gives back. */
  lemma EmptyLabelNamedByPage(startPage: nat)
    ensures var name := FileName("", startPage);
      name == "section_" + NatText(startPage + 1) + ".pdf" &&
      DigitsValue(name[8..|name| - 4]) == startPage + 1
  {
    var name := FileName("", startPage);
    assert name[8..|name| - 4] == NatText(startPage + 1);
    NatTextRoundTrip(startPage + 1);
  }

  /** The 0-based first and last page of an export. */
  datatype PageSpan = PageSpan(first: int, last: int)

  /**
   * `int(row["starting_page_number"]) - 1` and `int(row["ending_page_number"]) - 1`:
   * none when the ending page is missing, where `int` of the missing value fails.
   */
  function ZeroBasedSpan(start: int, end: Option<int>): (span: Option<PageSpan>)
    ensures span.Some? <==> end.Some?
    ensures span.Some? ==> span.value.first + 1 == start && span.value.last + 1 == end.value
  {
    if end.None? then None else Some(PageSpan(start - 1, end.value - 1))
  }

}
