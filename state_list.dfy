/**
 * The "Manticore State" dock widget: a tree with four bucket nodes (Active,
 * Waiting, Complete, Errored) under which one item per symbolic-execution
 * state is kept, reconciled against each new map of state id to descriptor.
 *
 * The Qt tree is represented by the child list of each bucket node (a list
 * of state ids, in display order) and by the map from a state id to the
 * bucket its item currently sits under; an item is identified by its id.
 */
module StateList {
  import opened Wrappers
  import opened Format
  import opened Seqs

  /** Manticore's `StateStatus`, plus any value the widget's table does not list. */
  datatype Status =
    | Running
    | WaitingForWorker
    | WaitingForSolver
    | Stopped
    | Destroyed
    | Unrecognized(name: string)

  /** The parts of Manticore's `StateDescriptor` the widget reads. */
  datatype StateDescriptor = StateDescriptor(stateId: int, status: Status)

  /** The four bucket nodes of the tree. */
  datatype Bucket = Active | Waiting | Complete | Errored

  /** The `ValueError` raised for a status the table does not list. */
  datatype Error = UnknownStatus(status: Status)

  /** `self.state_lists`: the bucket nodes in tree order. */
  const Buckets: seq<Bucket> := [Active, Waiting, Complete, Errored]

  function Index(b: Bucket): (i: nat)
    ensures i < 4 && Buckets[i] == b
  {
    match b
    case Active => 0
    case Waiting => 1
    case Complete => 2
    case Errored => 3
  }

  lemma IndexOfBucket(i: nat)
    requires i < 4
    ensures Index(Buckets[i]) == i
  {
  }

  /** The text each bucket node is created with. */
  function Name(b: Bucket): string
  {
    match b
    case Active => "Active"
    case Waiting => "Waiting"
    case Complete => "Complete"
    case Errored => "Errored"
  }

  /** The text the tree's header is created with. */
  const HeaderTitle: string := "State List"

  /** `self.state_status_mapping`: which statuses each bucket node collects, in table order. */
  const StatusMapping: seq<(Bucket, seq<Status>)> := [
    (Active, [Running]),
    (Waiting, [WaitingForWorker, WaitingForSolver]),
    (Complete, [Stopped]),
    (Errored, [Destroyed])
  ]

  /** The bucket of the first table row that lists `s`. */
  function FirstListing(table: seq<(Bucket, seq<Status>)>, s: Status): Option<Bucket>
  {
    if table == [] then None
    else if s in table[0].1 then Some(table[0].0)
    else FirstListing(table[1..], s)
  }

  /** The bucket a state with status `s` belongs under, or None when no row lists `s`. */
  function Classify(s: Status): Option<Bucket>
  {
    FirstListing(StatusMapping, s)
  }

  /** The table sends every Manticore status to exactly the bucket the widget documents. */
  lemma ClassifyTable()
    ensures Classify(Running) == Some(Active)
    ensures Classify(WaitingForWorker) == Some(Waiting)
    ensures Classify(WaitingForSolver) == Some(Waiting)
    ensures Classify(Stopped) == Some(Complete)
    ensures Classify(Destroyed) == Some(Errored)
    ensures forall name :: Classify(Unrecognized(name)) == None
  {
    assert StatusMapping[1..][1..][1..][1..] == [];
    forall name ensures Classify(Unrecognized(name)) == None {
      var t := StatusMapping;
      var u := Unrecognized(name);
      assert u !in t[0].1 && u !in t[1].1 && u !in t[2].1 && u !in t[3].1;
      assert FirstListing(t[1..][1..][1..][1..], u) == None;
      assert FirstListing(t[1..][1..][1..], u) == None;
      assert FirstListing(t[1..][1..], u) == None;
      assert FirstListing(t[1..], u) == None;
    }
  }

  /**
   * Rows are in tree order and disjoint: a status is listed in row `j` exactly
   * when it classifies to row `j`'s bucket, so at most one row lists it.
   */
  lemma ClassifyRow(s: Status, j: nat)
    requires j < 4
    ensures StatusMapping[j].0 == Buckets[j]
    ensures s in StatusMapping[j].1 <==> Classify(s) == Some(Buckets[j])
  {
    ClassifyTable();
  }

  /** Every bucket collects some status, and every Manticore status lands in a bucket. */
  lemma ClassificationTotal(s: Status)
    ensures Classify(s).Some? <==> !s.Unrecognized?
    ensures forall b :: exists t :: Classify(t) == Some(b)
  {
    ClassifyTable();
    forall b ensures exists t :: Classify(t) == Some(b) {
      match b
      case Active => assert Classify(Running) == Some(b);
      case Waiting => assert Classify(WaitingForWorker) == Some(b);
      case Complete => assert Classify(Stopped) == Some(b);
      case Errored => assert Classify(Destroyed) == Some(b);
    }
  }

  // ---------------------------------------------------------------------------
  // The tree as values: child lists per bucket and the bucket of every item

  predicate InBucket(items: map<int, Bucket>, x: int, b: Bucket)
  {
    x in items && items[x] == b
  }

  /**
   * Every child list is free of repetitions, every child is a tracked item
   * filed under that list's bucket, and every tracked item is a child of
   * the list of its bucket.
   */
  ghost predicate Placement(children: seq<seq<int>>, items: map<int, Bucket>)
  {
    && |children| == 4
    && (forall i :: 0 <= i < 4 ==> NoDups(children[i]))
    && (forall i, x :: 0 <= i < 4 && x in children[i] ==> InBucket(items, x, Buckets[i]))
    && (forall x :: x in items ==> x in children[Index(items[x])])
  }

  /** Every tracked item sits under exactly one bucket node. */
  lemma ExactlyOneBucket(children: seq<seq<int>>, items: map<int, Bucket>, x: int)
    requires Placement(children, items)
    ensures x in items <==> exists i :: 0 <= i < 4 && x in children[i]
    ensures forall i :: 0 <= i < 4 && x in children[i] ==> i == Index(items[x])
  {
    if x in items {
      assert x in children[Index(items[x])];
    }
  }

  /** Sum of the child counts of `children`. */
  function TotalCount(children: seq<seq<int>>): nat
  {
    if children == [] then 0
    else TotalCount(children[..|children| - 1]) + |children[|children| - 1]|
  }

  lemma TotalCountFour(children: seq<seq<int>>)
    requires |children| == 4
    ensures TotalCount(children) == |children[0]| + |children[1]| + |children[2]| + |children[3]|
  {
    var c3, c2, c1 := children[..3], children[..2], children[..1];
    assert c3[..2] == c2 && c2[..1] == c1 && c1[..0] == [];
    assert TotalCount(c1) == |children[0]|;
    assert TotalCount(c2) == TotalCount(c1) + |children[1]|;
    assert TotalCount(c3) == TotalCount(c2) + |children[2]|;
  }

  function Elements(s: seq<int>): set<int> { set x | x in s }

  lemma PlacementKeys(children: seq<seq<int>>, items: map<int, Bucket>)
    requires Placement(children, items)
    ensures items.Keys == Elements(children[0]) + Elements(children[1]) + Elements(children[2]) + Elements(children[3])
  {
    forall x | x in items
      ensures x in Elements(children[0]) + Elements(children[1]) + Elements(children[2]) + Elements(children[3])
    {
      assert x in children[Index(items[x])];
    }
    forall x | x in Elements(children[0]) + Elements(children[1]) + Elements(children[2]) + Elements(children[3])
      ensures x in items
    {
      if x in children[0] { assert InBucket(items, x, Buckets[0]); }
      else if x in children[1] { assert InBucket(items, x, Buckets[1]); }
      else if x in children[2] { assert InBucket(items, x, Buckets[2]); }
      else { assert InBucket(items, x, Buckets[3]); }
    }
  }

  lemma PlacementDisjoint(children: seq<seq<int>>, items: map<int, Bucket>, i: nat, j: nat)
    requires Placement(children, items) && i < j < 4
    ensures Elements(children[i]) !! Elements(children[j])
  {
    forall x | x in children[i] ensures x !in children[j] {
      assert InBucket(items, x, Buckets[i]);
    }
  }

  lemma DisjointCard(a: set<int>, b: set<int>)
    requires a !! b
    ensures |a + b| == |a| + |b|
  {
    assert a * b == {};
  }

  /** The header's total equals the number of tracked items. */
  lemma PlacementCount(children: seq<seq<int>>, items: map<int, Bucket>)
    requires Placement(children, items)
    ensures TotalCount(children) == |items|
  {
    var s0, s1, s2, s3 := Elements(children[0]), Elements(children[1]), Elements(children[2]), Elements(children[3]);
    NoDupsCard(children[0]);
    NoDupsCard(children[1]);
    NoDupsCard(children[2]);
    NoDupsCard(children[3]);
    PlacementKeys(children, items);
    PlacementDisjoint(children, items, 0, 1);
    PlacementDisjoint(children, items, 0, 2);
    PlacementDisjoint(children, items, 0, 3);
    PlacementDisjoint(children, items, 1, 2);
    PlacementDisjoint(children, items, 1, 3);
    PlacementDisjoint(children, items, 2, 3);
    DisjointCard(s0, s1);
    DisjointCard(s0 + s1, s2);
    DisjointCard(s0 + s1 + s2, s3);
    assert |items| == |items.Keys|;
    TotalCountFour(children);
  }

  /** The ids of `s`, in order, whose item is filed under `b` in `items`. */
  function Keep(s: seq<int>, items: map<int, Bucket>, b: Bucket): (r: seq<int>)
    ensures forall x :: x in r <==> x in s && InBucket(items, x, b)
  {
    if s == [] then []
    else (if InBucket(items, s[0], b) then [s[0]] else []) + Keep(s[1..], items, b)
  }

  /** The kept ids keep their order in `s` and, like `s`, occur once each. */
  lemma {:induction false} KeepInOrder(s: seq<int>, items: map<int, Bucket>, b: Bucket)
    ensures IsSubsequence(Keep(s, items, b), s)
    ensures NoDups(s) ==> NoDups(Keep(s, items, b))
  {
    if s != [] {
      var rest := Keep(s[1..], items, b);
      KeepInOrder(s[1..], items, b);
      if InBucket(items, s[0], b) {
        assert ([s[0]] + rest)[1..] == rest;
        if NoDups(s) {
          assert NoDups(s[1..]);
          assert s[0] !in rest;
        }
      } else {
        assert Keep(s, items, b) == rest;
        assert rest == [] || IsSubsequence(rest, s[1..]);
      }
    }
  }

  /**
   * The ids of `done`, in order, whose item is filed under `b` in `items`
   * but was not under `b` in `oldItems`: the items appended to `b`'s list.
   */
  function Arrivals(done: seq<int>, oldItems: map<int, Bucket>, items: map<int, Bucket>, b: Bucket): (r: seq<int>)
    ensures forall x :: x in r <==> x in done && InBucket(items, x, b) && !InBucket(oldItems, x, b)
  {
    if done == [] then []
    else
      var last := done[|done| - 1];
      Arrivals(done[..|done| - 1], oldItems, items, b)
      + (if InBucket(items, last, b) && !InBucket(oldItems, last, b) then [last] else [])
  }

  /**
   * The expected child list of bucket node `i` while the states in `done` have
   * been applied: the old children that still belong to it, in their old
   * order, then the items created or moved into it, in the order applied.
   */
  function Column(oldChildren: seq<seq<int>>, oldItems: map<int, Bucket>, items: map<int, Bucket>, done: seq<int>,
                  i: nat): seq<int>
    requires |oldChildren| == 4 && i < 4
  {
    Keep(oldChildren[i], items, Buckets[i]) + Arrivals(done, oldItems, items, Buckets[i])
  }

  /** The expected tree, one Column per bucket node. */
  function Layout(oldChildren: seq<seq<int>>, oldItems: map<int, Bucket>, items: map<int, Bucket>, done: seq<int>)
    : (c: seq<seq<int>>)
    requires |oldChildren| == 4
    ensures |c| == 4
    ensures forall i :: 0 <= i < 4 ==> c[i] == Column(oldChildren, oldItems, items, done, i)
  {
    seq(4, i requires 0 <= i < 4 => Column(oldChildren, oldItems, items, done, i))
  }

  /** The child lists after the item `x` is taken from `from`'s list and appended to `to`'s. */
  function Move(children: seq<seq<int>>, x: int, from: Bucket, to: Bucket): seq<seq<int>>
    requires |children| == 4
  {
    var c := children[Index(from) := Remove(children[Index(from)], x)];
    c[Index(to) := c[Index(to)] + [x]]
  }

  lemma MoveAt(children: seq<seq<int>>, x: int, from: Bucket, to: Bucket, i: nat)
    requires |children| == 4 && i < 4 && from != to
    ensures Move(children, x, from, to)[i]
         == if i == Index(from) then Remove(children[i], x)
            else if i == Index(to) then children[i] + [x]
            else children[i]
  {
  }

  lemma {:induction false} KeepAgree(s: seq<int>, items: map<int, Bucket>, items': map<int, Bucket>, b: Bucket)
    requires forall x :: x in s ==> (InBucket(items, x, b) <==> InBucket(items', x, b))
    ensures Keep(s, items', b) == Keep(s, items, b)
  {
    if s != [] {
      KeepAgree(s[1..], items, items', b);
    }
  }

  lemma {:induction false} ArrivalsAgree(done: seq<int>, oldItems: map<int, Bucket>, items: map<int, Bucket>,
                                         items': map<int, Bucket>, b: Bucket)
    requires forall x :: x in done ==> (InBucket(items, x, b) <==> InBucket(items', x, b))
    ensures Arrivals(done, oldItems, items', b) == Arrivals(done, oldItems, items, b)
  {
    if done != [] {
      ArrivalsAgree(done[..|done| - 1], oldItems, items, items', b);
    }
  }

  /** Taking `x` out of bucket `b` in the item map takes it out of the kept list. */
  lemma KeepDropHead(s: seq<int>, items: map<int, Bucket>, items': map<int, Bucket>, b: Bucket)
    requires NoDups(s) && s != []
    requires forall y :: y in s[1..] ==> (InBucket(items, y, b) <==> InBucket(items', y, b))
    requires !InBucket(items', s[0], b)
    ensures Keep(s, items', b) == Remove(Keep(s, items, b), s[0])
  {
    var x := s[0];
    assert x !in s[1..];
    var k := Keep(s[1..], items, b);
    KeepAgree(s[1..], items, items', b);
    assert Keep(s, items', b) == k;
    assert x !in k;
    if InBucket(items, x, b) {
      assert Keep(s, items, b) == [x] + k;
      assert ([x] + k)[1..] == k;
    } else {
      assert Keep(s, items, b) == k;
      RemoveAbsent(k, x);
    }
  }

  lemma {:induction false} KeepDrop(s: seq<int>, items: map<int, Bucket>, items': map<int, Bucket>, b: Bucket, x: int)
    requires NoDups(s)
    requires forall y :: y in s && y != x ==> (InBucket(items, y, b) <==> InBucket(items', y, b))
    requires !InBucket(items', x, b)
    ensures Keep(s, items', b) == Remove(Keep(s, items, b), x)
  {
    if s != [] {
      if s[0] == x {
        assert forall y :: y in s[1..] ==> y != x;
        KeepDropHead(s, items, items', b);
      } else {
        assert NoDups(s[1..]);
        KeepDrop(s[1..], items, items', b, x);
        var k := Keep(s[1..], items, b);
        assert s[0] in s && (InBucket(items, s[0], b) <==> InBucket(items', s[0], b));
        if InBucket(items, s[0], b) {
          assert Keep(s, items, b) == [s[0]] + k;
          assert Keep(s, items', b) == [s[0]] + Remove(k, x);
          RemovePrepend(s[0], k, x);
        } else {
          assert Keep(s, items, b) == k;
          assert Keep(s, items', b) == Remove(k, x);
        }
      }
    }
  }

  lemma ArrivalsSnoc(done: seq<int>, x: int, oldItems: map<int, Bucket>, items: map<int, Bucket>, b: Bucket)
    ensures Arrivals(done + [x], oldItems, items, b)
         == Arrivals(done, oldItems, items, b) + (if InBucket(items, x, b) && !InBucket(oldItems, x, b) then [x] else [])
  {
    assert (done + [x])[..|done|] == done;
  }

  lemma {:induction false} KeepAll(s: seq<int>, items: map<int, Bucket>, b: Bucket)
    requires forall x :: x in s ==> InBucket(items, x, b)
    ensures Keep(s, items, b) == s
  {
    if s != [] {
      KeepAll(s[1..], items, b);
      assert [s[0]] + s[1..] == s;
    }
  }

  lemma {:induction false} KeepNone(s: seq<int>, b: Bucket)
    ensures Keep(s, map[], b) == []
  {
    if s != [] {
      KeepNone(s[1..], b);
    }
  }

  lemma {:induction false} NoArrivals(done: seq<int>, items: map<int, Bucket>, b: Bucket)
    ensures Arrivals(done, items, items, b) == []
  {
    if done != [] {
      NoArrivals(done[..|done| - 1], items, b);
    }
  }

  /**
   * When no item has changed bucket, the expected tree is the tree as it
   * was, whichever states were applied: in particular before any state is
   * applied.
   */
  lemma LayoutSettled(children: seq<seq<int>>, items: map<int, Bucket>, done: seq<int>)
    requires Placement(children, items)
    ensures Layout(children, items, items, done) == children
  {
    forall i | 0 <= i < 4 ensures Layout(children, items, items, done)[i] == children[i] {
      KeepAll(children[i], items, Buckets[i]);
      NoArrivals(done, items, Buckets[i]);
      assert Layout(children, items, items, done)[i] == children[i] + [];
    }
  }

  /** Applying a state whose item stays where it was leaves the expected tree as it is. */
  lemma StayStep(oldChildren: seq<seq<int>>, oldItems: map<int, Bucket>, items: map<int, Bucket>, done: seq<int>, id: int)
    requires |oldChildren| == 4
    requires id in items && InBucket(oldItems, id, items[id])
    ensures Layout(oldChildren, oldItems, items, done + [id]) == Layout(oldChildren, oldItems, items, done)
  {
    forall i | 0 <= i < 4
      ensures Layout(oldChildren, oldItems, items, done + [id])[i] == Layout(oldChildren, oldItems, items, done)[i]
    {
      ArrivalsSnoc(done, id, oldItems, items, Buckets[i]);
    }
  }

  lemma CreateColumn(s: seq<int>, oldItems: map<int, Bucket>, items: map<int, Bucket>, done: seq<int>,
                     id: int, b: Bucket, bi: Bucket)
    requires id !in s && id !in done && id !in oldItems
    ensures Keep(s, items[id := b], bi) + Arrivals(done + [id], oldItems, items[id := b], bi)
         == Keep(s, items, bi) + Arrivals(done, oldItems, items, bi) + (if bi == b then [id] else [])
  {
    var items' := items[id := b];
    KeepAgree(s, items, items', bi);
    ArrivalsAgree(done, oldItems, items, items', bi);
    ArrivalsSnoc(done, id, oldItems, items', bi);
  }

  /** Creating the item of a new state under `b` appends it to `b`'s list. */
  lemma CreateStep(oldChildren: seq<seq<int>>, oldItems: map<int, Bucket>, items: map<int, Bucket>, done: seq<int>,
                   id: int, b: Bucket)
    requires Placement(oldChildren, oldItems)
    requires id !in done && id !in items && id !in oldItems
    ensures var c := Layout(oldChildren, oldItems, items, done);
            c[Index(b) := c[Index(b)] + [id]] == Layout(oldChildren, oldItems, items[id := b], done + [id])
  {
    var c := Layout(oldChildren, oldItems, items, done);
    var c' := Layout(oldChildren, oldItems, items[id := b], done + [id]);
    forall i | 0 <= i < 4 ensures c[Index(b) := c[Index(b)] + [id]][i] == c'[i] {
      assert id !in oldChildren[i];
      CreateColumn(oldChildren[i], oldItems, items, done, id, b, Buckets[i]);
      IndexOfBucket(i);
    }
  }

  lemma MoveColumn(s: seq<int>, oldItems: map<int, Bucket>, items: map<int, Bucket>, done: seq<int>,
                   id: int, b: Bucket, bi: Bucket)
    requires NoDups(s)
    requires id !in done && id in items && InBucket(oldItems, id, items[id]) && b != items[id]
    requires bi == items[id] ==> id in s
    requires bi == b ==> id !in s
    ensures Keep(s, items[id := b], bi) + Arrivals(done + [id], oldItems, items[id := b], bi)
         == if bi == items[id] then Remove(Keep(s, items, bi) + Arrivals(done, oldItems, items, bi), id)
            else Keep(s, items, bi) + Arrivals(done, oldItems, items, bi) + (if bi == b then [id] else [])
  {
    var items' := items[id := b];
    var k, a := Keep(s, items, bi), Arrivals(done, oldItems, items, bi);
    ArrivalsAgree(done, oldItems, items, items', bi);
    ArrivalsSnoc(done, id, oldItems, items', bi);
    if bi == items[id] {
      assert Arrivals(done + [id], oldItems, items', bi) == a;
      assert id in k;
      RemoveAppend(k, a, id);
      KeepDrop(s, items, items', bi, id);
    } else {
      KeepAgree(s, items, items', bi);
      assert Arrivals(done + [id], oldItems, items', bi) == a + (if bi == b then [id] else []);
    }
  }

  /** Reclassifying an existing item from its bucket to `b` moves it to the end of `b`'s list. */
  lemma MoveStep(oldChildren: seq<seq<int>>, oldItems: map<int, Bucket>, items: map<int, Bucket>, done: seq<int>,
                 id: int, b: Bucket)
    requires Placement(oldChildren, oldItems)
    requires id !in done && id in items && InBucket(oldItems, id, items[id]) && b != items[id]
    ensures Move(Layout(oldChildren, oldItems, items, done), id, items[id], b)
         == Layout(oldChildren, oldItems, items[id := b], done + [id])
  {
    var moved := Move(Layout(oldChildren, oldItems, items, done), id, items[id], b);
    var c' := Layout(oldChildren, oldItems, items[id := b], done + [id]);
    assert id in oldChildren[Index(items[id])];
    forall i | 0 <= i < 4 ensures moved[i] == c'[i] {
      MoveAt(Layout(oldChildren, oldItems, items, done), id, items[id], b, i);
      MoveColumn(oldChildren[i], oldItems, items, done, id, b, Buckets[i]);
      IndexOfBucket(i);
    }
  }

  lemma RemoveColumn(s: seq<int>, oldItems: map<int, Bucket>, items: map<int, Bucket>, done: seq<int>,
                     x: int, bi: Bucket)
    requires NoDups(s)
    requires x !in done && x in items && InBucket(oldItems, x, items[x])
    requires bi == items[x] ==> x in s
    ensures Keep(s, items - {x}, bi) + Arrivals(done, oldItems, items - {x}, bi)
         == if bi == items[x] then Remove(Keep(s, items, bi) + Arrivals(done, oldItems, items, bi), x)
            else Keep(s, items, bi) + Arrivals(done, oldItems, items, bi)
  {
    var items' := items - {x};
    ArrivalsAgree(done, oldItems, items, items', bi);
    if bi == items[x] {
      var k := Keep(s, items, bi);
      assert x in k;
      RemoveAppend(k, Arrivals(done, oldItems, items, bi), x);
      KeepDrop(s, items, items', bi, x);
    } else {
      KeepAgree(s, items, items', bi);
    }
  }

  /** Deleting the item of a vanished state takes it out of its list. */
  lemma RemoveStep(oldChildren: seq<seq<int>>, oldItems: map<int, Bucket>, items: map<int, Bucket>, done: seq<int>,
                   x: int)
    requires Placement(oldChildren, oldItems)
    requires x !in done && x in items && InBucket(oldItems, x, items[x])
    ensures var c := Layout(oldChildren, oldItems, items, done);
            var i := Index(items[x]);
            c[i := Remove(c[i], x)] == Layout(oldChildren, oldItems, items - {x}, done)
  {
    var c := Layout(oldChildren, oldItems, items, done);
    var cur := Index(items[x]);
    var c' := Layout(oldChildren, oldItems, items - {x}, done);
    forall i | 0 <= i < 4 ensures c[cur := Remove(c[cur], x)][i] == c'[i] {
      assert x in oldChildren[cur];
      RemoveColumn(oldChildren[i], oldItems, items, done, x, Buckets[i]);
      IndexOfBucket(i);
    }
  }
  // ---------------------------------------------------------------------------
  // Texts of the bucket nodes and of the header

  /** A space and the count in parentheses: what the widget appends to a bucket's and to the header's text. */
  function CountSuffix(n: nat): string
  {
    " (" + Decimal(n) + ")"
  }

  /** `s.rfind(c)`: the index of the last `c` in `s`, or -1 when there is none. */
  function RFind(s: string, c: char): (r: int)
    ensures -1 <= r < |s|
    ensures r >= 0 ==> s[r] == c && forall i :: r < i < |s| ==> s[i] != c
    ensures r == -1 ==> c !in s
  {
    if s == [] then -1
    else if s[|s| - 1] == c then |s| - 1
    else RFind(s[..|s| - 1], c)
  }

  /** `s[:stop]`, where a negative `stop` counts from the end. */
  function SliceTo(s: string, stop: int): string
  {
    if stop >= 0 then s[..if stop < |s| then stop else |s|]
    else s[..if |s| + stop > 0 then |s| + stop else 0]
  }

  /** The header text without its trailing count, as `_refresh_list_counts` strips it. */
  function StripCount(title: string): string
    requires |title| > 0
  {
    if title[|title| - 1] == ')' then SliceTo(title, RFind(title, '(') - 1) else title
  }

  /** Stripping only ever cuts a suffix, and cuts something exactly when the title ends in `)`. */
  lemma StripCountShape(title: string)
    requires |title| > 0
    ensures StripCount(title) <= title
    ensures |StripCount(title)| < |title| <==> title[|title| - 1] == ')'
  {
  }

  /** Stripping undoes appending a count, so refreshing again replaces the count instead of stacking one. */
  lemma StripCountAppended(t: string, n: nat)
    ensures StripCount(t + CountSuffix(n)) == t
  {
    var s := t + CountSuffix(n);
    var d := Decimal(n);
    assert s == t + " (" + d + ")";
    assert s[|t| + 1] == '(';
    forall i | |t| + 1 < i < |s| ensures s[i] != '(' {
      if i < |s| - 1 {
        assert s[i] == d[i - |t| - 2];
        assert IsDigitChar(d[i - |t| - 2]);
      }
    }
    assert RFind(s, '(') == |t| + 1;
    assert s[..|t|] == t;
  }

  lemma NameHasNoSpace(b: Bucket)
    ensures ' ' !in Name(b)
  {
  }

  /** A bucket's first word survives appending its count, so its label never stacks counts. */
  lemma LabelAppended(b: Bucket, n: nat)
    ensures Split(Name(b) + CountSuffix(n), ' ')[0] == Name(b)
  {
    NameHasNoSpace(b);
    assert Name(b) + CountSuffix(n) == Name(b) + [' '] + ("(" + Decimal(n) + ")");
    SplitAtSeparator(Name(b), "(" + Decimal(n) + ")", ' ');
  }

  // ---------------------------------------------------------------------------
  // Reconciliation as values

  /**
   * The bucket the item of state `x` ends up under: the one its status maps
   * to; for a status the table does not list, the one an existing item is
   * already under; None when there is no item yet and `_create_item` raises.
   */
  function Destination(items: map<int, Bucket>, newStates: map<int, StateDescriptor>, x: int): Option<Bucket>
    requires x in newStates
  {
    match Classify(newStates[x].status)
    case Some(b) => Some(b)
    case None => if x in items then Some(items[x]) else None
  }

  /** Every id of `done` is a state of `newStates` that can be placed. */
  ghost predicate Applicable(items: map<int, Bucket>, newStates: map<int, StateDescriptor>, done: seq<int>)
  {
    forall x :: x in done ==> x in newStates && Destination(items, newStates, x).Some?
  }

  /** The item map once the states in `done` have been added or updated. */
  function Advance(items: map<int, Bucket>, newStates: map<int, StateDescriptor>, done: seq<int>): map<int, Bucket>
    requires Applicable(items, newStates, done)
  {
    map x | x in items.Keys + Elements(done) :: if x in done then Destination(items, newStates, x).value else items[x]
  }

  /**
   * The item map after a complete update: every state of `newStates` is
   * placed, the ids of `oldStates` that are not in `newStates` are gone, and
   * items left over from an update that raised part-way stay where they are.
   */
  function Reconciled(items: map<int, Bucket>, oldStates: map<int, StateDescriptor>,
                      newStates: map<int, StateDescriptor>): map<int, Bucket>
    requires forall x :: x in newStates ==> Destination(items, newStates, x).Some?
  {
    map x | x in newStates.Keys + (items.Keys - oldStates.Keys) ::
      if x in newStates then Destination(items, newStates, x).value else items[x]
  }

  lemma AdvanceStep(items: map<int, Bucket>, newStates: map<int, StateDescriptor>, done: seq<int>, id: int)
    requires Applicable(items, newStates, done + [id]) && id !in done
    ensures Applicable(items, newStates, done)
    ensures Advance(items, newStates, done + [id]) == Advance(items, newStates, done)[id := Destination(items, newStates, id).value]
  {
    assert Elements(done + [id]) == Elements(done) + {id};
  }

  lemma AdvanceReconciled(items: map<int, Bucket>, oldStates: map<int, StateDescriptor>,
                          newStates: map<int, StateDescriptor>, order: seq<int>)
    requires oldStates.Keys <= items.Keys
    requires Applicable(items, newStates, order)
    requires forall x :: x in order <==> x in newStates
    ensures forall x :: x in newStates ==> Destination(items, newStates, x).Some?
    ensures Advance(items, newStates, order) - (oldStates.Keys - newStates.Keys) == Reconciled(items, oldStates, newStates)
  {
    forall x | x in newStates ensures x in Elements(order) {
      assert x in order;
    }
    forall x | x in Elements(order) ensures x in newStates {
      assert x in order;
    }
    assert Elements(order) == newStates.Keys;
  }

  /**
   * After an update the tracked ids are the new state ids plus any items left
   * over from an update that raised; the ids dropped are exactly the old state
   * ids missing from the new map, whatever their status. When the tracked ids
   * matched the old states, they now match the new states.
   */
  lemma ReconciledKeys(items: map<int, Bucket>, oldStates: map<int, StateDescriptor>,
                       newStates: map<int, StateDescriptor>)
    requires oldStates.Keys <= items.Keys
    requires forall x :: x in newStates ==> Destination(items, newStates, x).Some?
    ensures Reconciled(items, oldStates, newStates).Keys == newStates.Keys + (items.Keys - oldStates.Keys)
    ensures items.Keys - Reconciled(items, oldStates, newStates).Keys == oldStates.Keys - newStates.Keys
    ensures items.Keys == oldStates.Keys ==> Reconciled(items, oldStates, newStates).Keys == newStates.Keys
  {
  }

  /**
   * A state whose status the table lists is filed under that status's bucket;
   * an existing item whose status it does not list stays where it is.
   */
  lemma ReconciledBuckets(items: map<int, Bucket>, oldStates: map<int, StateDescriptor>,
                          newStates: map<int, StateDescriptor>, x: int)
    requires forall y :: y in newStates ==> Destination(items, newStates, y).Some?
    requires x in newStates
    ensures Classify(newStates[x].status).Some? ==>
              Reconciled(items, oldStates, newStates)[x] == Classify(newStates[x].status).value
    ensures Classify(newStates[x].status).None? ==> x in items && Reconciled(items, oldStates, newStates)[x] == items[x]
  {
  }
  /**
   * An update with an empty map clears the widget: no item is left, every
   * bucket node is empty and the header reads "State List (0)", provided no
   * item was left over by an update that raised.
   */
  lemma EmptyUpdateClears(children: seq<seq<int>>, items: map<int, Bucket>, oldStates: map<int, StateDescriptor>)
    requires Placement(children, items) && items.Keys == oldStates.Keys
    ensures Reconciled(items, oldStates, map[]) == map[]
    ensures Layout(children, items, map[], []) == [[], [], [], []]
    ensures HeaderTitle + CountSuffix(|Reconciled(items, oldStates, map[])|) == "State List (0)"
  {
    forall i | 0 <= i < 4 ensures Layout(children, items, map[], [])[i] == [] {
      KeepNone(children[i], Buckets[i]);
      assert Layout(children, items, map[], [])[i] == [] + [];
    }
    assert Reconciled(items, oldStates, map[]).Keys == {};
    assert Decimal(0) == "0";
  }

  /**
   * What an empty map keeps: exactly the tracked ids that are not ids of the
   * old states. So it clears every item exactly when every tracked id is an
   * old state's id.
   */
  lemma EmptyUpdateKeeps(items: map<int, Bucket>, oldStates: map<int, StateDescriptor>)
    ensures Reconciled(items, oldStates, map[]).Keys == items.Keys - oldStates.Keys
    ensures Reconciled(items, oldStates, map[]) == map[] <==> items.Keys <= oldStates.Keys
  {
    var r := Reconciled(items, oldStates, map[]);
    assert r.Keys == items.Keys - oldStates.Keys;
    if r == map[] {
      forall x | x in items.Keys ensures x in oldStates.Keys {
        assert x !in r.Keys;
      }
    }
  }

  /**
   * An empty map does not clear an item left by an update that raised. State
   * 1 is placed under Active, then the unlisted status of state 2 raises
   * before `states` is replaced, so the old states stay empty. The next,
   * empty, map then deletes nothing: state 1's item stays and the header
   * reads "State List (1)".
   */
  lemma LeftoverSurvivesEmptyUpdate()
    ensures var first := map[1 := StateDescriptor(1, Running), 2 := StateDescriptor(2, Unrecognized("x"))];
            && FirstFailure(map[], first, [1, 2], 1)
            && Advance(map[], first, [1]) == map[1 := Active]
            && Reconciled(map[1 := Active], map[], map[]) == map[1 := Active]
            && HeaderTitle + CountSuffix(|Reconciled(map[1 := Active], map[], map[])|) == "State List (1)"
  {
    var first := map[1 := StateDescriptor(1, Running), 2 := StateDescriptor(2, Unrecognized("x"))];
    assert [1, 2][..1] == [1];
    assert Elements([1]) == {1};
    assert Reconciled(map[1 := Active], map[], map[]).Keys == {1};
    assert Decimal(1) == "1";
  }

  /**
   * Applying the same states a second time changes nothing: every item is
   * already where its state puts it, so the items and the tree stay as they
   * are.
   */
  lemma RepeatedUpdateChangesNothing(children: seq<seq<int>>, items: map<int, Bucket>,
                                     oldStates: map<int, StateDescriptor>, newStates: map<int, StateDescriptor>,
                                     order: seq<int>)
    requires forall x :: x in newStates ==> Destination(items, newStates, x).Some?
    requires Placement(children, Reconciled(items, oldStates, newStates))
    ensures var settled := Reconciled(items, oldStates, newStates);
            && (forall x :: x in newStates ==> Destination(settled, newStates, x) == Some(settled[x]))
            && Reconciled(settled, newStates, newStates) == settled
            && Layout(children, settled, settled, order) == children
  {
    var settled := Reconciled(items, oldStates, newStates);
    SettledDestinations(items, oldStates, newStates);
    ReconciledFixed(settled, newStates);
    LayoutSettled(children, settled, order);
  }

  /** After an update, every new state's item is already in the bucket its state asks for. */
  lemma SettledDestinations(items: map<int, Bucket>, oldStates: map<int, StateDescriptor>,
                            newStates: map<int, StateDescriptor>)
    requires forall x :: x in newStates ==> Destination(items, newStates, x).Some?
    ensures var settled := Reconciled(items, oldStates, newStates);
            forall x :: x in newStates ==> x in settled && Destination(settled, newStates, x) == Some(settled[x])
  {
    var settled := Reconciled(items, oldStates, newStates);
    forall x | x in newStates ensures x in settled && Destination(settled, newStates, x) == Some(settled[x]) {
      ReconciledBuckets(items, oldStates, newStates, x);
    }
  }

  /** Reconciling items that already match the states, against those same states, keeps them. */
  lemma ReconciledFixed(settled: map<int, Bucket>, newStates: map<int, StateDescriptor>)
    requires forall x :: x in newStates ==> x in settled && Destination(settled, newStates, x) == Some(settled[x])
    ensures Reconciled(settled, newStates, newStates) == settled
  {
    var r := Reconciled(settled, newStates, newStates);
    forall x ensures x in r.Keys <==> x in settled.Keys {
      assert x in newStates ==> x in settled;
    }
    assert r.Keys == settled.Keys;
    forall x | x in r ensures r[x] == settled[x] {
    }
  }

  /** Filing a new item under `b` keeps every item under exactly one bucket node. */
  lemma PlacementCreate(children: seq<seq<int>>, items: map<int, Bucket>, id: int, b: Bucket)
    requires Placement(children, items) && id !in items
    ensures Placement(children[Index(b) := children[Index(b)] + [id]], items[id := b])
  {
    var c := children[Index(b) := children[Index(b)] + [id]];
    assert id !in children[Index(b)];
    AppendNoDups(children[Index(b)], id);
    forall i, x | 0 <= i < 4 && x in c[i] ensures InBucket(items[id := b], x, Buckets[i]) {
      IndexOfBucket(i);
    }
  }

  /** Moving an item to bucket `b` keeps every item under exactly one bucket node. */
  lemma PlacementMove(children: seq<seq<int>>, items: map<int, Bucket>, id: int, b: Bucket)
    requires Placement(children, items) && id in items && items[id] != b
    ensures Placement(Move(children, id, items[id], b), items[id := b])
  {
    var cur := Index(items[id]);
    var c := Move(children, id, items[id], b);
    RemoveNoDups(children[cur], id);
    assert id !in children[Index(b)];
    AppendNoDups(children[Index(b)], id);
    forall i, x | 0 <= i < 4 && x in c[i] ensures InBucket(items[id := b], x, Buckets[i]) {
      IndexOfBucket(i);
    }
  }

  /** Deleting an item keeps every remaining item under exactly one bucket node. */
  lemma PlacementRemove(children: seq<seq<int>>, items: map<int, Bucket>, x: int)
    requires Placement(children, items) && x in items
    ensures var i := Index(items[x]);
            Placement(children[i := Remove(children[i], x)], items - {x})
  {
    var cur := Index(items[x]);
    RemoveNoDups(children[cur], x);
  }

  /**
   * `order[k]` is the first state of the update whose item cannot be
   * placed: every state before it can, and it has no item and a status
   * the table does not list.
   */
  ghost predicate FirstFailure(items: map<int, Bucket>, newStates: map<int, StateDescriptor>, order: seq<int>, k: int)
  {
    && 0 <= k < |order|
    && Applicable(items, newStates, order[..k])
    && order[k] in newStates
    && Destination(items, newStates, order[k]).None?
  }

  /**
   * The tree `children` with items `items` is the expected tree once the
   * states of `done` have been applied to the tree `oldChildren` with items
   * `oldItems`.
   */
  ghost predicate Tracks(children: seq<seq<int>>, items: map<int, Bucket>,
                         oldChildren: seq<seq<int>>, oldItems: map<int, Bucket>, done: seq<int>)
    requires |oldChildren| == 4
  {
    && Placement(children, items)
    && children == Layout(oldChildren, oldItems, items, done)
  }

  /** Updating the item of a state that has one is one step of the reconciliation. */
  lemma UpdateApplies(children: seq<seq<int>>, items: map<int, Bucket>, oldChildren: seq<seq<int>>,
                      oldItems: map<int, Bucket>, newStates: map<int, StateDescriptor>, done: seq<int>, id: int)
    requires Placement(oldChildren, oldItems) && Tracks(children, items, oldChildren, oldItems, done)
    requires Applicable(oldItems, newStates, done) && items == Advance(oldItems, newStates, done)
    requires id in newStates && id !in done && id in items
    ensures Applicable(oldItems, newStates, done + [id])
    ensures var target := Classify(newStates[id].status);
            if target.Some? && target.value != items[id] then
              var items' := items[id := target.value];
              items' == Advance(oldItems, newStates, done + [id])
              && Tracks(Move(children, id, items[id], target.value), items', oldChildren, oldItems, done + [id])
            else
              items == Advance(oldItems, newStates, done + [id])
              && Tracks(children, items, oldChildren, oldItems, done + [id])
  {
    assert id in oldItems && items[id] == oldItems[id];
    AdvanceStep(oldItems, newStates, done, id);
    var target := Classify(newStates[id].status);
    if target.Some? && target.value != items[id] {
      MoveStep(oldChildren, oldItems, items, done, id, target.value);
      PlacementMove(children, items, id, target.value);
    } else {
      assert items[id := Destination(oldItems, newStates, id).value] == items;
      StayStep(oldChildren, oldItems, items, done, id);
    }
  }

  /** Creating the item of a state that has none, under bucket `b`, is one step of the reconciliation. */
  lemma CreateApplies(children: seq<seq<int>>, items: map<int, Bucket>, oldChildren: seq<seq<int>>,
                      oldItems: map<int, Bucket>, newStates: map<int, StateDescriptor>, done: seq<int>,
                      id: int, b: Bucket)
    requires Placement(oldChildren, oldItems) && Tracks(children, items, oldChildren, oldItems, done)
    requires Applicable(oldItems, newStates, done) && items == Advance(oldItems, newStates, done)
    requires id in newStates && id !in done && id !in items && Classify(newStates[id].status) == Some(b)
    ensures Applicable(oldItems, newStates, done + [id])
    ensures items[id := b] == Advance(oldItems, newStates, done + [id])
    ensures Tracks(children[Index(b) := children[Index(b)] + [id]], items[id := b], oldChildren, oldItems, done + [id])
  {
    assert id !in oldItems;
    AdvanceStep(oldItems, newStates, done, id);
    CreateStep(oldChildren, oldItems, items, done, id, b);
    PlacementCreate(children, items, id, b);
  }

  /** Deleting the item of a state that is gone keeps the tree the expected one. */
  lemma RemoveApplies(children: seq<seq<int>>, items: map<int, Bucket>, oldChildren: seq<seq<int>>,
                      oldItems: map<int, Bucket>, done: seq<int>, x: int)
    requires Placement(oldChildren, oldItems) && Tracks(children, items, oldChildren, oldItems, done)
    requires x in items && x !in done && InBucket(oldItems, x, items[x])
    ensures var cur := Index(items[x]);
            Tracks(children[cur := Remove(children[cur], x)], items - {x}, oldChildren, oldItems, done)
  {
    RemoveStep(oldChildren, oldItems, items, done, x);
    PlacementRemove(children, items, x);
  }

  /**
   * Once every new state is placed, the old states missing from the new map
   * still have their old items, and deleting them yields the reconciled items,
   * which cover every new state.
   */
  lemma RemovalReady(items: map<int, Bucket>, oldItems: map<int, Bucket>, oldStates: map<int, StateDescriptor>,
                     newStates: map<int, StateDescriptor>, order: seq<int>)
    requires oldStates.Keys <= oldItems.Keys
    requires forall x :: x in order <==> x in newStates
    requires Applicable(oldItems, newStates, order) && items == Advance(oldItems, newStates, order)
    ensures forall x :: x in oldStates.Keys - newStates.Keys ==> x in items && x !in order && InBucket(oldItems, x, items[x])
    ensures forall x :: x in newStates ==> Destination(oldItems, newStates, x).Some?
    ensures items - (oldStates.Keys - newStates.Keys) == Reconciled(oldItems, oldStates, newStates)
    ensures newStates.Keys <= Reconciled(oldItems, oldStates, newStates).Keys
  {
    AdvanceReconciled(oldItems, oldStates, newStates, order);
    ReconciledKeys(oldItems, oldStates, newStates);
    forall x | x in oldStates.Keys - newStates.Keys
      ensures x in items && x !in order && InBucket(oldItems, x, items[x])
    {
      assert x in oldItems;
    }
  }

  // ---------------------------------------------------------------------------
  // The widget

  class StateListWidget {
    /** `self.states`: the last map of states the widget was given. */
    var states: map<int, StateDescriptor>
    /** `self.state_items`, each item given by the bucket node it sits under. */
    var stateItems: map<int, Bucket>
    /** The child list of each bucket node, in `Buckets` order. */
    var children: seq<seq<int>>
    /** The text of each bucket node, in `Buckets` order. */
    var labels: seq<string>
    /** The text of the tree's header. */
    var header: string

    /** The bucket texts and the header keep their titles, whatever counts they carry. */
    ghost predicate TitlesKept()
      reads this`labels, this`header
    {
      && |labels| == 4
      && (forall i :: 0 <= i < 4 ==> Split(labels[i], ' ')[0] == Name(Buckets[i]))
      && |header| > 0 && StripCount(header) == HeaderTitle
    }

    /** The tree's shape: items placed consistently, bucket and header texts with their titles intact. */
    ghost predicate TreeValid()
      reads this
    {
      Placement(children, stateItems) && TitlesKept()
    }

    /** Every known state has an item (an update that raised part-way may leave extra items). */
    ghost predicate Valid()
      reads this
    {
      TreeValid() && states.Keys <= stateItems.Keys
    }

    constructor ()
      ensures Valid()
      ensures states == map[] && stateItems == map[]
      ensures children == [[], [], [], []]
      ensures labels == [Name(Active), Name(Waiting), Name(Complete), Name(Errored)]
      ensures header == HeaderTitle
    {
      states := map[];
      stateItems := map[];
      children := [[], [], [], []];
      labels := [Name(Active), Name(Waiting), Name(Complete), Name(Errored)];
      header := HeaderTitle;
      new;
      forall i | 0 <= i < 4 ensures Split(labels[i], ' ')[0] == Name(Buckets[i]) {
        NameHasNoSpace(Buckets[i]);
        SplitNoSeparator(Name(Buckets[i]), ' ');
      }
    }

    /**
     * `_create_item`: files a new item for state `id` under the first bucket
     * whose statuses include the state's status; raises for any other status.
     */
    method CreateItem(id: int, state: StateDescriptor) returns (r: Result<Bucket, Error>)
      requires |children| == 4
      modifies this`children
      ensures r.Success? <==> Classify(state.status).Some?
      ensures r.Success? ==> Classify(state.status) == Some(r.value)
      ensures r.Success? ==> children == old(children)[Index(r.value) := old(children)[Index(r.value)] + [id]]
      ensures r.Failure? ==> r.error == UnknownStatus(state.status) && children == old(children)
    {
      for k := 0 to |StatusMapping|
        invariant children == old(children)
        invariant Classify(state.status) == FirstListing(StatusMapping[k..], state.status)
      {
        var (bucket, statuses) := StatusMapping[k];
        if state.status in statuses {
          children := children[Index(bucket) := children[Index(bucket)] + [id]];
          return Success(bucket);
        }
        assert StatusMapping[k..][1..] == StatusMapping[k + 1..];
      }
      return Failure(UnknownStatus(state.status));
    }

    /**
     * `_update_item`: moves the item of state `id` to the end of the bucket
     * its new status maps to; an item already there, or whose status the
     * table does not list, stays where it is.
     */
    method UpdateItem(id: int, state: StateDescriptor)
      requires Placement(children, stateItems) && id in stateItems
      modifies this`children, this`stateItems
      ensures Placement(children, stateItems)
      ensures var target := Classify(state.status);
              if target.Some? && target.value != old(stateItems[id]) then
                stateItems == old(stateItems)[id := target.value]
                && children == Move(old(children), id, old(stateItems[id]), target.value)
              else
                stateItems == old(stateItems) && children == old(children)
    {
      var switchTo: Option<Bucket> := None;
      for k := 0 to |StatusMapping|
        invariant switchTo == None
        invariant forall j :: 0 <= j < k ==> !(state.status in StatusMapping[j].1 && StatusMapping[j].0 != stateItems[id])
      {
        var (bucket, statuses) := StatusMapping[k];
        if state.status in statuses && stateItems[id] != bucket {
          ClassifyRow(state.status, k);
          switchTo := Some(bucket);
          break;
        }
      }
      var target := Classify(state.status);
      if target.Some? {
        ClassifyRow(state.status, Index(target.value));
      }
      if switchTo.Some? {
        PlacementMove(children, stateItems, id, switchTo.value);
        children := Move(children, id, stateItems[id], switchTo.value);
        stateItems := stateItems[id := switchTo.value];
      }
    }

    /**
     * `_refresh_list_counts`: every bucket text becomes its first word and its
     * child count, and the header its title and the total count, which is the
     * number of tracked items.
     */
    method RefreshListCounts()
      requires TreeValid()
      modifies this`labels, this`header
      ensures TreeValid()
      ensures forall i :: 0 <= i < 4 ==> labels[i] == Name(Buckets[i]) + CountSuffix(|children[i]|)
      ensures header == HeaderTitle + CountSuffix(|stateItems|)
    {
      var totalCount := 0;
      for i := 0 to 4
        invariant |labels| == 4 && header == old(header)
        invariant totalCount == TotalCount(children[..i])
        invariant forall j :: 0 <= j < i ==> labels[j] == Name(Buckets[j]) + CountSuffix(|children[j]|)
        invariant forall j :: i <= j < 4 ==> labels[j] == old(labels[j])
      {
        var childCount := |children[i]|;
        labels := labels[i := Split(labels[i], ' ')[0] + CountSuffix(childCount)];
        totalCount := totalCount + childCount;
        assert children[..i + 1][..i] == children[..i];
      }
      assert children[..4] == children;
      PlacementCount(children, stateItems);
      header := StripCount(header) + CountSuffix(totalCount);
      StripCountAppended(HeaderTitle, totalCount);
      forall i | 0 <= i < 4 ensures Split(labels[i], ' ')[0] == Name(Buckets[i]) {
        LabelAppended(Buckets[i], |children[i]|);
      }
    }
    /**
     * The body of the first loop of `notifyStatesChanged` for the state `id`:
     * updates its item when it has one, otherwise creates one and tracks it.
     * Applying it extends the reconciliation of `done` by `id`; when
     * `_create_item` raises, nothing changes.
     */
    method AddOrUpdateState(id: int, state: StateDescriptor, ghost newStates: map<int, StateDescriptor>,
                            ghost oldChildren: seq<seq<int>>, ghost oldItems: map<int, Bucket>, ghost done: seq<int>)
      returns (r: Outcome<Error>)
      requires Placement(oldChildren, oldItems)
      requires Applicable(oldItems, newStates, done) && stateItems == Advance(oldItems, newStates, done)
      requires Tracks(children, stateItems, oldChildren, oldItems, done)
      requires id in newStates && newStates[id] == state && id !in done
      modifies this`children, this`stateItems
      ensures r.Pass? <==> Destination(oldItems, newStates, id).Some?
      ensures r.Pass? ==> Applicable(oldItems, newStates, done + [id])
                          && stateItems == Advance(oldItems, newStates, done + [id])
                          && Tracks(children, stateItems, oldChildren, oldItems, done + [id])
      ensures r.Fail? ==> r.error == UnknownStatus(state.status)
                          && children == old(children) && stateItems == old(stateItems)
    {
      if id in stateItems {
        UpdateApplies(children, stateItems, oldChildren, oldItems, newStates, done, id);
        UpdateItem(id, state);
        return Pass;
      }
      assert id !in oldItems;
      ghost var before := children;
      var created := CreateItem(id, state);
      if created.Failure? {
        return Fail(created.error);
      }
      CreateApplies(before, stateItems, oldChildren, oldItems, newStates, done, id, created.value);
      stateItems := stateItems[id := created.value];
      return Pass;
    }

    /**
     * The first loop of `notifyStatesChanged`: updates the item of every
     * state of `order` that has one and creates an item for every other,
     * stopping at the first state whose item `_create_item` cannot create.
     * `k` counts the states applied.
     */
    method AddOrUpdateStates(newStates: map<int, StateDescriptor>, order: seq<int>)
      returns (r: Outcome<Error>, ghost k: int)
      requires Placement(children, stateItems)
      requires NoDups(order) && forall x :: x in order ==> x in newStates
      modifies this`children, this`stateItems
      ensures 0 <= k <= |order| && Applicable(old(stateItems), newStates, order[..k])
      ensures stateItems == Advance(old(stateItems), newStates, order[..k])
      ensures Tracks(children, stateItems, old(children), old(stateItems), order[..k])
      ensures r.Pass? ==> k == |order|
      ensures r.Fail? ==> FirstFailure(old(stateItems), newStates, order, k)
                          && r.error == UnknownStatus(newStates[order[k]].status)
    {
      ghost var oldItems, oldChildren := stateItems, children;
      LayoutSettled(children, stateItems, []);
      assert order[..0] == [] && Elements([]) == {};
      assert Advance(oldItems, newStates, order[..0]) == oldItems;
      var i := 0;
      while i < |order|
        invariant 0 <= i <= |order|
        invariant Applicable(oldItems, newStates, order[..i])
        invariant stateItems == Advance(oldItems, newStates, order[..i])
        invariant Tracks(children, stateItems, oldChildren, oldItems, order[..i])
      {
        var id := order[i];
        assert order[..i + 1] == order[..i] + [id];
        assert id !in order[..i];
        var applied := AddOrUpdateState(id, newStates[id], newStates, oldChildren, oldItems, order[..i]);
        if applied.Fail? {
          return applied, i;
        }
        i := i + 1;
      }
      assert order[..i] == order;
      return Pass, i;
    }

    /**
     * The second loop of `notifyStatesChanged`: takes the item of every id of
     * `removed` out of its bucket node's child list and stops tracking it,
     * keeping the tree the expected one. The loop works on copies of the two
     * fields, written back once it ends; nothing reads them in between.
     */
    method RemoveStates(removed: set<int>, ghost oldChildren: seq<seq<int>>, ghost oldItems: map<int, Bucket>,
                        ghost done: seq<int>)
      requires Placement(oldChildren, oldItems) && Tracks(children, stateItems, oldChildren, oldItems, done)
      requires forall x :: x in removed ==> x in stateItems && x !in done && InBucket(oldItems, x, stateItems[x])
      modifies this`children, this`stateItems
      ensures stateItems == old(stateItems) - removed
      ensures Tracks(children, stateItems, oldChildren, oldItems, done)
    {
      var c, items := children, stateItems;
      var pending := removed;
      while pending != {}
        invariant pending <= removed
        invariant items == old(stateItems) - (removed - pending)
        invariant Tracks(c, items, oldChildren, oldItems, done)
        decreases pending
      {
        var x :| x in pending;
        assert x in old(stateItems) && x !in removed - pending;
        RemoveApplies(c, items, oldChildren, oldItems, done, x);
        var cur := Index(items[x]);
        c := c[cur := Remove(c[cur], x)];
        items := items - {x};
        pending := pending - {x};
      }
      assert removed - pending == removed;
      children, stateItems := c, items;
    }

    /**
     * The rest of `notifyStatesChanged` once every state of `newStates` is
     * placed: deletes the items of the old states missing from `newStates`,
     * refreshes the counts and keeps `newStates`.
     */
    method FinishStatesChanged(newStates: map<int, StateDescriptor>, order: seq<int>,
                               ghost oldChildren: seq<seq<int>>, ghost oldItems: map<int, Bucket>)
      requires TitlesKept() && Placement(oldChildren, oldItems) && states.Keys <= oldItems.Keys
      requires forall x :: x in order <==> x in newStates
      requires Applicable(oldItems, newStates, order) && stateItems == Advance(oldItems, newStates, order)
      requires Tracks(children, stateItems, oldChildren, oldItems, order)
      modifies this
      ensures Valid() && states == newStates
      ensures forall x :: x in newStates ==> Destination(oldItems, newStates, x).Some?
      ensures stateItems == Reconciled(oldItems, old(states), newStates)
      ensures children == Layout(oldChildren, oldItems, stateItems, order)
      ensures forall i :: 0 <= i < 4 ==> labels[i] == Name(Buckets[i]) + CountSuffix(|children[i]|)
      ensures header == HeaderTitle + CountSuffix(|stateItems|)
    {
      var oldStates := states;
      RemovalReady(stateItems, oldItems, oldStates, newStates, order);

      // Delete the items of the states missing from the new map.
      RemoveStates(oldStates.Keys - newStates.Keys, oldChildren, oldItems, order);

      // Show the new counts.
      RefreshListCounts();

      // Keep the new map for the next diff.
      states := newStates;
    }

    /**
     * `notifyStatesChanged`: adds or updates an item for every state of
     * `newStates`, visited in `order` (the map's iteration order), deletes
     * the items of the old states missing from `newStates`, refreshes the
     * counts and keeps `newStates`. A status the table does not list on a
     * state without an item raises part-way, leaving the items placed so far
     * and the old states, counts and header.
     */
    method NotifyStatesChanged(newStates: map<int, StateDescriptor>, order: seq<int>) returns (r: Outcome<Error>)
      requires Valid()
      requires NoDups(order) && forall x :: x in order <==> x in newStates
      modifies this
      ensures Valid()
      ensures r.Pass? <==> forall x :: x in newStates ==> Destination(old(stateItems), newStates, x).Some?
      ensures r.Pass? ==>
                && states == newStates
                && stateItems == Reconciled(old(stateItems), old(states), newStates)
                && children == Layout(old(children), old(stateItems), stateItems, order)
                && (forall i :: 0 <= i < 4 ==> labels[i] == Name(Buckets[i]) + CountSuffix(|children[i]|))
                && header == HeaderTitle + CountSuffix(|stateItems|)
      ensures r.Fail? ==>
                && states == old(states) && labels == old(labels) && header == old(header)
                && exists k :: FirstFailure(old(stateItems), newStates, order, k)
                               && r.error == UnknownStatus(newStates[order[k]].status)
                               && stateItems == Advance(old(stateItems), newStates, order[..k])
                               && children == Layout(old(children), old(stateItems), stateItems, order[..k])
    {
      ghost var oldItems, oldChildren := stateItems, children;

      // Place every new state, stopping at the first one that cannot be placed.
      var added;
      ghost var k;
      added, k := AddOrUpdateStates(newStates, order);
      if added.Fail? {
        return added;
      }
      assert order[..k] == order;
      FinishStatesChanged(newStates, order, oldChildren, oldItems);
      return Pass;
    }
  }
}
