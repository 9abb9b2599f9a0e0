/** Reading a hash table without changing it: its self-check and its enumerations. */
module HashWalk {
  import opened Common
  import opened Buckets
  import opened HashMemory
  import opened HashTable

  /** All entries in bucket order, head first: the order in which every walk visits them. */
  ghost function Listed<E>(b: Chains<E>): (s: seq<E>) {
    if b == [] then [] else Listed(b[..|b| - 1]) + b[|b| - 1]
  }

  lemma {:induction false} FlatEntries<E>(b: Chains<E>)
    ensures multiset(Listed(b)) == Entries(b) && |Listed(b)| == Size(b)
  {
    if b != [] { FlatEntries(b[..|b| - 1]); }
  }

  lemma {:induction false} FlatSplit<E>(b: Chains<E>, h: nat)
    requires h <= |b|
    ensures Listed(b) == Listed(b[..h]) + Listed(b[h..])
  {
    if h < |b| {
      var last := |b| - 1;
      FlatSplit(b[..last], h);
      assert b[..last][..h] == b[..h] && b[..last][h..] == b[h..][..last - h];
      assert b[h..][|b| - h - 1] == b[last];
    } else {
      assert b[..h] == b;
    }
  }

  lemma {:induction false} FlatAt<E>(b: Chains<E>, h: nat)
    requires h < |b|
    ensures Listed(b) == Listed(b[..h]) + b[h] + Listed(b[h + 1..])
    ensures Listed(b[..h + 1]) == Listed(b[..h]) + b[h]
  {
    FlatSplit(b, h + 1);
    assert b[..h + 1][..h] == b[..h];
  }

  lemma {:induction false} FlatSkip<E>(b: Chains<E>, h: nat, g: nat)
    requires h <= g <= |b| && forall i {:trigger b[i]} :: h <= i < g ==> b[i] == []
    ensures Listed(b[h..]) == Listed(b[g..])
    decreases g - h
  {
    if h < g {
      FlatAt(b[h..], 0);
      assert b[h..][1..] == b[h + 1..];
      FlatSkip(b, h + 1, g);
    }
  }

  /** Counts used buckets and entries and compares them with the table's statistics. */
  method TableOk<E(==,!new)>(table: Table<E>) returns (ok: bool)
    requires table.Wired(-1)
    ensures ok <==> table.nBucketsUsed == Used(table.view.contents) && table.nEntries == Size(table.view.contents)
    ensures table.Valid() ==> ok
  {
    ghost var b := table.view.contents;
    var used, entries, i := 0, 0, 0;
    while i < table.nBuckets
      invariant 0 <= i <= |b| == table.nBuckets
      invariant used == Used(b[..i]) && entries == Size(b[..i])
    {
      assert b[..i + 1][..i] == b[..i];
      HeadCell(table.store.M(), table.view, -1, i);
      if table.store.cells[table.bucket + i].data.Some? {
        used, entries := used + 1, entries + 1;
        ghost var j := 0;
        ChainStep(table.store.M(), table.view, i, 0);
        var cursor := table.store.cells[table.bucket + i].next;
        while cursor != NULL
          invariant 0 <= j < |b[i]| && entries == Size(b[..i]) + j + 1
          invariant |table.view.chains[i]| == |b[i]|
          invariant cursor == if j + 1 < |b[i]| then table.view.chains[i][j + 1] else NULL
          decreases |b[i]| - j
        {
          j := j + 1;
          ChainStep(table.store.M(), table.view, i, j);
          entries := entries + 1;
          cursor := table.store.cells[cursor].next;
        }
        assert entries == Size(b[..i]) + |b[i]|;
      }
      i := i + 1;
    }
    assert b[..i] == b;
    ok := used == table.nBucketsUsed && entries == table.nEntries;
  }

  lemma {:induction false} CountTwice<E>(s: seq<E>, i: nat, j: nat)
    requires i < j < |s| && s[i] == s[j]
    ensures multiset(s)[s[i]] >= 2
  {
    assert s == s[..j] + s[j..];
    assert s[i] in s[..j] && s[j] in s[j..];
  }

  /** Appends the entries of bucket `i` until the buffer is full. */
  method CopyBucket<E(==,!new)>(table: Table<E>, i: nat, start: seq<E>, bufferSize: nat)
    returns (buffer: seq<E>, full: bool)
    requires table.Wired(-1) && i < table.nBuckets && |start| <= bufferSize
    ensures var es := table.view.contents[i]; buffer == start + es[..Min(bufferSize - |start|, |es|)]
    ensures full <==> |start| + |table.view.contents[i]| > bufferSize
  {
    ghost var es := table.view.contents[i];
    buffer := start;
    HeadCell(table.store.M(), table.view, -1, i);
    if table.store.cells[table.bucket + i].data.None? { return start, false; }
    ghost var j := 0;
    ChainStep(table.store.M(), table.view, i, 0);
    var cursor := table.bucket + i;
    while cursor != NULL
      invariant 0 <= j <= |es| == |table.view.chains[i]|
      invariant buffer == start + es[..j] && |buffer| <= bufferSize
      invariant cursor == if j < |es| then table.view.chains[i][j] else NULL
      decreases |es| - j
    {
      ChainStep(table.store.M(), table.view, i, j);
      if |buffer| >= bufferSize { return buffer, true; }
      buffer := buffer + [table.store.cells[cursor].data.value];
      cursor := table.store.cells[cursor].next;
      j := j + 1;
    }
    return buffer, false;
  }

  lemma {:induction false} FlatUpTo<E>(b: seq<seq<E>>, i: nat, n: nat)
    requires i < |b| && |Listed(b[..i])| <= n
    ensures Listed(b[..i + 1]) == Listed(b[..i]) + b[i] <= Listed(b)
    ensures |Listed(b[..i])| + |b[i]| > n ==>
              n <= |Listed(b)| && Listed(b)[..n] == Listed(b[..i]) + b[i][..n - |Listed(b[..i])|]
  {
    FlatAt(b, i);
  }

  /** Copies up to `bufferSize` entries out, in walking order. */
  method GetEntries<E(==,!new)>(table: Table<E>, bufferSize: nat) returns (buffer: seq<E>)
    requires table.Wired(-1)
    ensures var all := Listed(table.view.contents); buffer == all[..Min(bufferSize, |all|)]
  {
    ghost var b := table.view.contents;
    buffer := [];
    var i := 0;
    while i < table.nBuckets
      invariant 0 <= i <= |b| == table.nBuckets
      invariant buffer == Listed(b[..i]) && |buffer| <= bufferSize
    {
      FlatUpTo(b, i, bufferSize);
      var full;
      buffer, full := CopyBucket(table, i, buffer, bufferSize);
      if full { return; }
      assert b[i][..|b[i]|] == b[i];
      i := i + 1;
    }
    assert b[..i] == b;
    assert Listed(b)[..|Listed(b)|] == Listed(b);
  }

  /** The first entry of the first nonempty bucket at or after `from`. */
  method FirstFrom<E(==,!new)>(table: Table<E>, from: nat) returns (data: Option<E>)
    requires table.Wired(-1) && from <= table.nBuckets
    ensures var rest := Listed(table.view.contents[from..]);
            data == if rest == [] then None else Some(rest[0])
  {
    ghost var b := table.view.contents;
    var i := from;
    while i < table.nBuckets
      invariant from <= i <= |b| == table.nBuckets
      invariant forall k {:trigger b[k]} :: from <= k < i ==> b[k] == []
    {
      HeadCell(table.store.M(), table.view, -1, i);
      if table.store.cells[table.bucket + i].data.Some? {
        FlatSkip(b, from, i);
        FlatAt(b[i..], 0);
        return table.store.cells[table.bucket + i].data;
      }
      i := i + 1;
    }
    FlatSkip(b, from, i);
    data := None;
  }

  method GetFirst<E(==,!new)>(table: Table<E>) returns (data: Option<E>)
    requires table.Valid()
    ensures var all := Listed(table.view.contents); data == if all == [] then None else Some(all[0])
  {
    FlatEntries(table.view.contents);
    assert table.view.contents[0..] == table.view.contents;
    if table.nEntries == 0 { return None; }
    data := FirstFrom(table, 0);
    if data.None? {
      assert false;  // hash.c calls abort() here
    }
  }

  lemma {:induction false} SamePosition<E>(s: seq<E>, i: nat, j: nat)
    requires i < |s| && j < |s| && s[i] == s[j] && multiset(s)[s[i]] <= 1
    ensures i == j
  {
    if i < j { CountTwice(s, i, j); }
    if j < i { CountTwice(s, j, i); }
  }

  lemma {:induction false} NoRepeats<E>(s: seq<E>)
    requires forall x {:trigger multiset(s)[x]} :: multiset(s)[x] <= 1
    ensures forall i, j {:trigger s[i], s[j]} :: 0 <= i < j < |s| ==> s[i] != s[j]
  {
    forall i, j | 0 <= i < j < |s|
      ensures s[i] != s[j]
    {
      if s[i] == s[j] { SamePosition(s, i, j); }
    }
  }

  /** Position of an entry within its bucket and within the walk. */
  lemma {:induction false} PlaceInWalk<E(!new)>(b: Chains<E>, hasher: (E, nat) -> nat, k: nat) returns (j: nat)
    requires Placed(b, hasher) && k < |Listed(b)| && forall x {:trigger Entries(b)[x]} :: Entries(b)[x] <= 1
    ensures var e := Listed(b)[k]; var h := hasher(e, |b|);
            && h < |b| && j < |b[h]| && b[h][j] == e && k == |Listed(b[..h])| + j
            && forall i {:trigger b[h][i]} :: 0 <= i < |b[h]| && b[h][i] == e ==> i == j
  {
    var e := Listed(b)[k];
    FlatEntries(b);
    assert e in multiset(Listed(b));
    EntryHasPlace(b, e);
    var h :| 0 <= h < |b| && e in b[h];
    j :| 0 <= j < |b[h]| && b[h][j] == e;
    assert hasher(b[h][j], |b|) == h;
    forall i | 0 <= i < |b[h]| && b[h][i] == e
      ensures |Listed(b[..h])| + i == k
    {
      assert Entries(b)[e] <= 1;
      OnlyPlace(b, h, i, k);
    }
  }

  lemma {:induction false} OnlyPlace<E(!new)>(b: Chains<E>, h: nat, i: nat, k: nat)
    requires h < |b| && i < |b[h]| && k < |Listed(b)| && Listed(b)[k] == b[h][i] && multiset(Listed(b))[b[h][i]] <= 1
    ensures |Listed(b[..h])| + i == k
  {
    FlatAt(b, h);
    SamePosition(Listed(b), |Listed(b[..h])| + i, k);
  }

  /** The entry after `entry` in walking order. */
  method GetNext<E(==,!new)>(table: Table<E>, entry: E, ghost k: nat) returns (data: Option<E>)
    requires table.Valid() && k < |Listed(table.view.contents)| && entry == Listed(table.view.contents)[k]
    ensures var all := Listed(table.view.contents); data == if k + 1 < |all| then Some(all[k + 1]) else None
  {
    ghost var b := table.view.contents;
    ghost var j := PlaceInWalk(b, table.hasher, k);
    var h := table.hasher(entry, table.nBuckets);
    FlatAt(b, h);
    HeadCell(table.store.M(), table.view, -1, h);
    ChainStep(table.store.M(), table.view, h, 0);
    var cursor := table.bucket + h;
    ghost var i := 0;
    while cursor != NULL
      invariant 0 <= i <= |b[h]| == |table.view.chains[h]|
      invariant cursor == if i < |b[h]| then table.view.chains[h][i] else NULL
      invariant i <= j || j + 1 == |b[h]|
      decreases |b[h]| - i
    {
      ChainStep(table.store.M(), table.view, h, i);
      var next := table.store.cells[cursor].next;
      if table.store.cells[cursor].data == Some(entry) && next != NULL {
        ChainStep(table.store.M(), table.view, h, i + 1);
        return table.store.cells[next].data;
      }
      cursor := next;
      i := i + 1;
    }
    data := FirstFrom(table, h + 1);
  }

  /** Starting at the first entry and stepping to the next follows the walking order to its end. */
  method WalkAll<E(==,!new)>(table: Table<E>) returns (visited: seq<E>)
    requires table.Valid()
    ensures visited == Listed(table.view.contents)
  {
    ghost var all := Listed(table.view.contents);
    visited := [];
    var cursor := GetFirst(table);
    while cursor.Some?
      invariant |visited| <= |all| && visited == all[..|visited|]
      invariant cursor == if |visited| < |all| then Some(all[|visited|]) else None
      decreases |all| - |visited|
    {
      var next := GetNext(table, cursor.value, |visited|);
      visited := visited + [cursor.value];
      cursor := next;
    }
  }

  /** The walking order holds every entry of a valid table, and none twice. */
  lemma {:induction false} WalkIsExact<E(!new)>(b: Chains<E>, comparator: (E, E) -> bool)
    requires Unique(Entries(b), comparator)
    ensures multiset(Listed(b)) == Entries(b)
    ensures var s := Listed(b); forall i, j {:trigger s[i], s[j]} :: 0 <= i < j < |s| ==>
              s[i] != s[j] && !comparator(s[i], s[j])
  {
    var s := Listed(b);
    FlatEntries(b);
    NoRepeats(s);
    forall i, j | 0 <= i < j < |s|
      ensures !comparator(s[i], s[j])
    {
      assert s[i] in multiset(s) && s[j] in multiset(s);
    }
  }
}
