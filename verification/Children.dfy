/** The children of a directory node: kept sorted by name, searched by bisection, inserted in place. */
module Children {
  import opened Common
  import opened Bytes
  import opened Order

  /** A child and its name; nodes are numbered. */
  datatype Entry = Entry(name: bytes, node: nat)

  ghost predicate Sorted(list: seq<Entry>) {
    forall i, j {:trigger list[i], list[j]} :: 0 <= i < j < |list| ==> Less(list[i].name, list[j].name)
  }

  /** Everything before `pos` is smaller than `name`. */
  ghost predicate Above(list: seq<Entry>, name: bytes, pos: int) {
    pos <= |list| && forall k {:trigger list[k]} :: 0 <= k < pos ==> Less(list[k].name, name)
  }

  /** Everything from `pos` on is greater. */
  ghost predicate Below(list: seq<Entry>, name: bytes, pos: int) {
    0 <= pos && forall k {:trigger list[k]} :: pos <= k < |list| ==> Less(name, list[k].name)
  }

  lemma {:induction false} ExtendAbove(list: seq<Entry>, name: bytes, mid: nat)
    requires Sorted(list) && mid < |list| && Less(list[mid].name, name)
    ensures Above(list, name, mid + 1)
  {
    forall k | 0 <= k < mid
      ensures Less(list[k].name, name)
    {
      LessTransitive(list[k].name, list[mid].name, name);
    }
  }

  lemma {:induction false} ExtendBelow(list: seq<Entry>, name: bytes, mid: nat)
    requires Sorted(list) && mid < |list| && Less(name, list[mid].name)
    ensures Below(list, name, mid)
  {
    forall k | mid < k < |list|
      ensures Less(name, list[k].name)
    {
      LessTransitive(name, list[mid].name, list[k].name);
    }
  }

  /** The child with the name, or the place where it belongs; the end is tried first. */
  method BSearch(list: seq<Entry>, name: bytes) returns (found: bool, pos: nat)
    requires Sorted(list)
    ensures found ==> pos < |list| && list[pos].name == name
    ensures !found ==> pos <= |list| && Above(list, name, pos) && Below(list, name, pos)
  {
    var start, end := 0, |list|;
    if end > 0 {
      LessTotal(name, list[end - 1].name);
      if name == list[end - 1].name { return true, end - 1; }
      if Less(list[end - 1].name, name) {
        ExtendAbove(list, name, end - 1);
        return false, end;
      }
    }
    while end > start
      invariant 0 <= start <= end <= |list| && Above(list, name, start) && Below(list, name, end)
      decreases end - start
    {
      var mid := (start + end) / 2;
      LessTotal(name, list[mid].name);
      if name == list[mid].name { return true, mid; }
      if Less(name, list[mid].name) {
        ExtendBelow(list, name, mid);
        end := mid;
      } else {
        ExtendAbove(list, name, mid);
        start := mid + 1;
      }
    }
    return false, start;
  }

  ghost predicate Has(list: seq<Entry>, name: bytes) {
    exists k :: 0 <= k < |list| && list[k].name == name
  }

  lemma {:induction false} SplitLacks(list: seq<Entry>, name: bytes, pos: nat)
    requires pos <= |list| && Above(list, name, pos) && Below(list, name, pos)
    ensures !Has(list, name)
  {
    LessIrreflexive(name);
  }

  datatype AddError = NotDirectory | EmptyName | NameTooLong | AlreadyAdded | NoMemory | Exists

  /** What adding a child makes of the list. */
  ghost predicate AddedTo(list: seq<Entry>, e: Entry, list': seq<Entry>) {
    Sorted(list') && multiset(list') == multiset(list) + multiset{e}
  }

  lemma {:induction false} InsertKeeps(list: seq<Entry>, e: Entry, pos: nat)
    requires Sorted(list) && pos <= |list| && Above(list, e.name, pos) && Below(list, e.name, pos)
    ensures AddedTo(list, e, list[..pos] + [e] + list[pos..])
  {
    var r := list[..pos] + [e] + list[pos..];
    assert list == list[..pos] + list[pos..];
    forall i, j | 0 <= i < j < |r|
      ensures Less(r[i].name, r[j].name)
    {
      assert i < pos ==> r[i] == list[i];
      assert j > pos ==> r[j] == list[j - 1];
      assert i > pos ==> r[i] == list[i - 1];
    }
  }

  /**
   A failed addition changes nothing; otherwise the list holds one more child and stays sorted without duplicates.  If
   memory is ample no allocation fails.
   */
  method AddTo(isDir: bool, list: seq<Entry>, hasName: bool, e: Entry, ample: bool)
    returns (error: Option<AddError>, list': seq<Entry>)
    requires Sorted(list)
    ensures error.Some? ==> list' == list
    ensures error.None? ==> AddedTo(list, e, list') && isDir && 1 <= |e.name| <= 255 && !hasName && !Has(list, e.name)
    ensures error == Some(NotDirectory) <==> !isDir
    ensures error == Some(EmptyName) <==> isDir && |e.name| == 0
    ensures error == Some(NameTooLong) <==> isDir && |e.name| > 255
    ensures error == Some(AlreadyAdded) <==> isDir && 1 <= |e.name| <= 255 && hasName
    ensures error == Some(Exists) ==> Has(list, e.name)
    ensures isDir && 1 <= |e.name| <= 255 && !hasName && !Has(list, e.name) ==> error.None? || error == Some(NoMemory)
    ensures ample ==> error != Some(NoMemory)
  {
    if !isDir { return Some(NotDirectory), list; }
    if |e.name| == 0 { return Some(EmptyName), list; }
    if |e.name| > 255 { return Some(NameTooLong), list; }
    if hasName { return Some(AlreadyAdded), list; }
    var granted: bool := *;
    if !ample && !granted { return Some(NoMemory), list; }
    var found, pos := BSearch(list, e.name);
    if found { return Some(Exists), list; }
    SplitLacks(list, e.name, pos);
    InsertKeeps(list, e, pos);
    return None, list[..pos] + [e] + list[pos..];
  }

  /** Whatever the order of additions, the same children end up in the same list. */
  lemma {:induction false} ChildrenCanonical(a: seq<Entry>, b: seq<Entry>)
    requires Sorted(a) && Sorted(b) && multiset(a) == multiset(b)
    ensures a == b
    decreases |a|
  {
    if a != [] {
      assert |multiset(a)| == |a| && |multiset(b)| == |b|;
      FirstIsLeast(a, b);
      FirstIsLeast(b, a);
      if a[0].name != b[0].name {
        LessTransitive(a[0].name, b[0].name, a[0].name);
        LessIrreflexive(a[0].name);
      }
      SameFirst(a, b);
      assert a == [a[0]] + a[1..] && b == [b[0]] + b[1..];
      assert multiset(a[1..]) == multiset(a) - multiset{a[0]} && multiset(b[1..]) == multiset(b) - multiset{b[0]};
      ChildrenCanonical(a[1..], b[1..]);
    } else {
      assert |multiset(b)| == |b|;
    }
  }

  lemma {:induction false} FirstIsLeast(a: seq<Entry>, b: seq<Entry>)
    requires Sorted(a) && a != [] && b != [] && multiset(a) == multiset(b)
    ensures a[0].name == b[0].name || Less(a[0].name, b[0].name)
  {
    assert b[0] in multiset(b);
    assert b[0] in a;
    var k :| 0 <= k < |a| && a[k] == b[0];
  }

  lemma {:induction false} SameFirst(a: seq<Entry>, b: seq<Entry>)
    requires Sorted(a) && a != [] && b != [] && multiset(a) == multiset(b) && a[0].name == b[0].name
    ensures a[0] == b[0]
  {
    assert b[0] in multiset(b);
    assert b[0] in a;
    var k :| 0 <= k < |a| && a[k] == b[0];
    LessIrreflexive(a[0].name);
  }
}
