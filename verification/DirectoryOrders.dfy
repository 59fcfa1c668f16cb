/** What the two orders of a recursive traversal mean, entry by entry (Foundation/src/DirectoryIteratorStrategy.cpp).
    An entry of the tree is named by its address: its number in the root directory, then its number in the directory
    so reached, and so on down. */
module DirectoryOrders {
  import opened DirectoryTraversal

  type Address = seq<nat>

  predicate IsAddress(es: seq<Entry>, a: Address): (r: bool)
    ensures r ==> a != []
    decreases |a|
  {
    a != [] && a[0] < |es| && (|a| == 1 || (es[a[0]].Dir? && IsAddress(es[a[0]].children, a[1..])))
  }

  function EntryAt(es: seq<Entry>, a: Address): Entry
    requires IsAddress(es, a)
    decreases |a|
  {
    if |a| == 1 then es[a[0]] else EntryAt(es[a[0]].children, a[1..])
  }

  /** A directory right before what is in it, and all of that before the next sibling. */
  predicate Earlier(a: Address, b: Address)
    decreases |a|
  {
    a != [] && b != [] &&
    (a[0] < b[0] || (a[0] == b[0] && |b| > 1 && (|a| == 1 || Earlier(a[1..], b[1..]))))
  }

  /** Siblings before anything further down; further down, in the order of the siblings. */
  predicate Sooner(a: Address, b: Address)
    decreases |a|
  {
    a != [] && b != [] &&
    if |a| == 1 then |b| > 1 || a[0] < b[0] else |b| > 1 && (a[0] < b[0] || (a[0] == b[0] && Sooner(a[1..], b[1..])))
  }

  /** In a directory at some depth the limit admits the entries themselves, and those below down to the depth of the limit;
      the limit 0 admits all. */
  predicate Within(a: Address, depth: nat, limit: nat) {
    |a| == 1 || limit == 0 || depth + |a| - 1 <= limit
  }

  /** The addresses name the paths one by one. */
  ghost predicate Named(es: seq<Entry>, list: seq<Address>, paths: seq<string>) {
    |list| == |paths| && forall i :: 0 <= i < |list| ==> IsAddress(es, list[i]) && EntryAt(es, list[i]).path == paths[i]
  }

  /** And they are all of the given length or longer that the limit admits. */
  ghost predicate Names(es: seq<Entry>, list: seq<Address>, paths: seq<string>, depth: nat, limit: nat, length: nat) {
    Named(es, list, paths)
    && (forall a :: a in list <==> IsAddress(es, a) && Within(a, depth, limit) && |a| >= length)
  }

  ghost predicate Ordered(list: seq<Address>, before: (Address, Address) -> bool) {
    forall i, j :: 0 <= i < j < |list| ==> before(list[i], list[j])
  }

  // ----- addresses in the first directory, and in the others -----

  function Inside(list: seq<Address>): (r: seq<Address>)
    ensures |r| == |list| && forall i :: 0 <= i < |list| ==> r[i] == [0] + list[i]
  {
    seq(|list|, i requires 0 <= i < |list| => [0] + list[i])
  }

  function Next(a: Address): Address {
    if a == [] then [] else [a[0] + 1] + a[1..]
  }

  function After(list: seq<Address>): (r: seq<Address>)
    ensures |r| == |list| && forall i :: 0 <= i < |list| ==> r[i] == Next(list[i])
  {
    seq(|list|, i requires 0 <= i < |list| => Next(list[i]))
  }

  lemma InsideNames(es: seq<Entry>, c: seq<Address>, paths: seq<string>, depth: nat, limit: nat)
    requires es != []
    requires if es[0].Dir? && (limit == 0 || depth < limit) then Names(es[0].children, c, paths, depth + 1, limit, 1)
             else c == [] && paths == []
    ensures Named(es, Inside(c), paths)
    ensures forall a :: a in Inside(c) <==> IsAddress(es, a) && Within(a, depth, limit) && |a| > 1 && a[0] == 0
  {
    forall i | 0 <= i < |c| ensures IsAddress(es, Inside(c)[i]) && EntryAt(es, Inside(c)[i]).path == paths[i] {
      assert ([0] + c[i])[1..] == c[i];
    }
    forall a | IsAddress(es, a) && Within(a, depth, limit) && |a| > 1 && a[0] == 0 ensures a in Inside(c) {
      assert a == [0] + a[1..];
      assert a[1..] in c;
      var i :| 0 <= i < |c| && c[i] == a[1..];
      assert Inside(c)[i] == a;
    }
    forall a | a in Inside(c) ensures IsAddress(es, a) && Within(a, depth, limit) && |a| > 1 && a[0] == 0 {
      var i :| 0 <= i < |c| && Inside(c)[i] == a;
      assert a[1..] == c[i] && c[i] in c;
    }
  }

  lemma AfterNames(es: seq<Entry>, r: seq<Address>, paths: seq<string>, depth: nat, limit: nat, length: nat)
    requires es != [] && Names(es[1..], r, paths, depth, limit, length)
    ensures Named(es, After(r), paths)
    ensures forall a :: a in After(r) <==> IsAddress(es, a) && Within(a, depth, limit) && |a| >= length && a[0] > 0
  {
    hide IsAddress, EntryAt, Next;
    forall i | 0 <= i < |r| ensures IsAddress(es, After(r)[i]) && EntryAt(es, After(r)[i]).path == paths[i] {
      assert r[i] in r;
      NextEntry(es, r[i]);
    }
    forall a | IsAddress(es, a) && Within(a, depth, limit) && |a| >= length && a[0] > 0 ensures a in After(r) {
      IsAfter(es, r, a);
    }
    forall a | a in After(r) ensures IsAddress(es, a) && Within(a, depth, limit) && |a| >= length && a[0] > 0 {
      var i :| 0 <= i < |r| && After(r)[i] == a;
      assert r[i] in r;
      NextEntry(es, r[i]);
    }
  }

  lemma IsAfter(es: seq<Entry>, r: seq<Address>, a: Address)
    requires es != [] && IsAddress(es, a) && a[0] > 0
    requires forall b :: IsAddress(es[1..], b) && |b| == |a| ==> b in r
    ensures a in After(r)
  {
    var b := Previous(a);
    NextEntry(es, b);
    assert b in r;
    var i :| 0 <= i < |r| && r[i] == b;
    assert After(r)[i] == a;
  }

  function Previous(a: Address): (b: Address)
    requires a != [] && a[0] > 0
    ensures Next(b) == a && |b| == |a|
  {
    [a[0] - 1] + a[1..]
  }

  lemma NextEntry(es: seq<Entry>, a: Address)
    requires es != [] && a != []
    ensures Next(a) != [] && Next(a)[0] > 0 && |Next(a)| == |a|
    ensures IsAddress(es, Next(a)) <==> IsAddress(es[1..], a)
    ensures IsAddress(es[1..], a) ==> EntryAt(es, Next(a)) == EntryAt(es[1..], a)
  {
    assert Next(a)[1..] == a[1..];
  }

  // ----- both orders -----

  lemma NamedJoin(es: seq<Entry>, a: seq<Address>, pa: seq<string>, b: seq<Address>, pb: seq<string>)
    requires Named(es, a, pa) && Named(es, b, pb)
    ensures Named(es, a + b, pa + pb)
  {
    hide IsAddress, EntryAt;
  }

  lemma NamesJoin(es: seq<Entry>, a: seq<Address>, pa: seq<string>, b: seq<Address>, pb: seq<string>,
                  depth: nat, limit: nat, length: nat)
    requires Named(es, a, pa) && Named(es, b, pb)
    requires forall x :: x in a || x in b <==> IsAddress(es, x) && Within(x, depth, limit) && |x| >= length
    ensures Names(es, a + b, pa + pb, depth, limit, length)
  {
    NamedJoin(es, a, pa, b, pb);
    hide Named, IsAddress, EntryAt, Within;
  }

  lemma OrderedJoin(a: seq<Address>, b: seq<Address>, before: (Address, Address) -> bool)
    requires Ordered(a, before) && Ordered(b, before)
    requires forall x, y :: x in a && y in b ==> before(x, y)
    ensures Ordered(a + b, before)
  {
  }

  /** The addresses in the first directory come before those in the others. */
  lemma Across(c: seq<Address>, r: seq<Address>)
    requires forall a :: a in c || a in r ==> a != []
    ensures forall x, y :: x in Inside(c) && y in After(r) ==> Earlier(x, y)
    ensures (forall a :: a in r ==> |a| > 1) ==> forall x, y :: x in Inside(c) && y in After(r) ==> Sooner(x, y)
    ensures forall x :: x in Inside(c) || x in After(r) ==> Earlier([0], x)
  {
    forall x | x in Inside(c) ensures |x| > 1 && x[0] == 0 {
      var i :| 0 <= i < |c| && Inside(c)[i] == x;
      assert c[i] in c;
    }
    forall y | y in After(r) ensures y != [] && y[0] > 0 && ((forall a :: a in r ==> |a| > 1) ==> |y| > 1) {
      var i :| 0 <= i < |r| && After(r)[i] == y;
      assert r[i] in r;
    }
  }

  lemma InsideOrdered(c: seq<Address>)
    requires forall a :: a in c ==> a != []
    ensures Ordered(c, Earlier) ==> Ordered(Inside(c), Earlier)
    ensures Ordered(c, Sooner) ==> Ordered(Inside(c), Sooner)
  {
    forall i, j | 0 <= i < j < |c|
      ensures Earlier(c[i], c[j]) ==> Earlier(Inside(c)[i], Inside(c)[j])
      ensures Sooner(c[i], c[j]) ==> Sooner(Inside(c)[i], Inside(c)[j])
    {
      assert c[i] in c && c[j] in c && ([0] + c[i])[1..] == c[i] && ([0] + c[j])[1..] == c[j];
    }
  }

  lemma AfterOrdered(r: seq<Address>)
    requires forall a :: a in r ==> a != []
    ensures Ordered(r, Earlier) ==> Ordered(After(r), Earlier)
    ensures Ordered(r, Sooner) ==> Ordered(After(r), Sooner)
  {
    forall i, j | 0 <= i < j < |r|
      ensures Earlier(r[i], r[j]) ==> Earlier(After(r)[i], After(r)[j])
      ensures Sooner(r[i], r[j]) ==> Sooner(After(r)[i], After(r)[j])
    {
      assert r[i] in r && r[j] in r && Next(r[i])[1..] == r[i][1..] && Next(r[j])[1..] == r[j][1..];
    }
  }

  lemma JoinNames(es: seq<Entry>, c: seq<Address>, below: seq<string>, r: seq<Address>, rest: seq<string>, depth: nat, limit: nat)
    requires es != [] && Names(es[1..], r, rest, depth, limit, 1)
    requires if es[0].Dir? && (limit == 0 || depth < limit) then Names(es[0].children, c, below, depth + 1, limit, 1)
             else c == [] && below == []
    ensures Names(es, [[0]] + (Inside(c) + After(r)), [es[0].path] + (below + rest), depth, limit, 1)
  {
    var first: Address := [0];
    InsideNames(es, c, below, depth, limit);
    AfterNames(es, r, rest, depth, limit, 1);
    NamedJoin(es, Inside(c), below, After(r), rest);
    FirstNamed(es, depth, limit);
    hide *;
    forall x | IsAddress(es, x) && Within(x, depth, limit) ensures x in [first] || x in Inside(c) + After(r) {
      assert |x| > 0 && (|x| == 1 && x[0] == 0 ==> x == first);
    }
    NamesJoin(es, [first], [es[0].path], Inside(c) + After(r), below + rest, depth, limit, 1);
  }

  lemma Regroup<T>(a: seq<T>, b: seq<T>, c: seq<T>)
    ensures a + (b + c) == a + b + c
  {
  }

  lemma FirstNamed(es: seq<Entry>, depth: nat, limit: nat)
    requires es != []
    ensures Named(es, [[0]], [es[0].path]) && IsAddress(es, [0]) && Within([0], depth, limit)
  {
  }

  lemma FirstOrdered(a: Address, b: seq<Address>, before: (Address, Address) -> bool)
    requires Ordered(b, before) && forall x :: x in b ==> before(a, x)
    ensures Ordered([a] + b, before)
  {
  }

  lemma JoinOrdered(c: seq<Address>, r: seq<Address>)
    requires Ordered(c, Earlier) && Ordered(r, Earlier)
    requires forall a :: a in c || a in r ==> a != []
    ensures Ordered([[0]] + (Inside(c) + After(r)), Earlier)
  {
    InsideOrdered(c);
    AfterOrdered(r);
    Across(c, r);
    hide *;
    OrderedJoin(Inside(c), After(r), Earlier);
    FirstOrdered([0], Inside(c) + After(r), Earlier);
  }

  /** Children first: every entry the limit admits is delivered once, right before what is below it. */
  lemma {:induction false} ChildrenFirstOrder(es: seq<Entry>, depth: nat, limit: nat) returns (list: seq<Address>)
    ensures Names(es, list, Preorder(es, depth, limit), depth, limit, 1) && Ordered(list, Earlier)
    decreases es
  {
    list := [];
    if es != [] {
      var c: seq<Address> := [];
      if es[0].Dir? && (limit == 0 || depth < limit) { c := ChildrenFirstOrder(es[0].children, depth + 1, limit); }
      var r := ChildrenFirstOrder(es[1..], depth, limit);
      JoinNames(es, c, Below(es[0], depth, limit), r, Preorder(es[1..], depth, limit), depth, limit);
      Regroup([es[0].path], Below(es[0], depth, limit), Preorder(es[1..], depth, limit));
      JoinOrdered(c, r);
      list := [[0]] + (Inside(c) + After(r));
    }
  }

  /** Siblings first: every entry the limit admits is delivered once, a whole directory before anything below it. */
  lemma {:induction false} SiblingsFirstOrder(es: seq<Entry>, depth: nat, limit: nat) returns (list: seq<Address>)
    ensures Names(es, list, SiblingsFirst(es, depth, limit), depth, limit, 1) && Ordered(list, Sooner)
    decreases es, 1
  {
    var d := DescentsOrder(es, depth, limit);
    var s := Numbers(|es|);
    PathsNamed(es);
    NamedJoin(es, s, Paths(es), d, Descents(es, depth, limit));
    assert forall x, y :: x in s && y in d ==> Sooner(x, y);
    OrderedJoin(s, d, Sooner);
    list := s + d;
    hide *;
  }

  lemma {:induction false} DescentsOrder(es: seq<Entry>, depth: nat, limit: nat) returns (list: seq<Address>)
    ensures Names(es, list, Descents(es, depth, limit), depth, limit, 2) && Ordered(list, Sooner)
    decreases es, 0
  {
    list := [];
    if es != [] {
      var c: seq<Address> := [];
      if es[0].Dir? && (limit == 0 || depth < limit) { c := SiblingsFirstOrder(es[0].children, depth + 1, limit); }
      var r := DescentsOrder(es[1..], depth, limit);
      JoinDescents(es, c, Descent(es[0], depth, limit), r, Descents(es[1..], depth, limit), depth, limit);
      list := Inside(c) + After(r);
    }
  }

  lemma JoinDescents(es: seq<Entry>, c: seq<Address>, below: seq<string>, r: seq<Address>, rest: seq<string>,
                     depth: nat, limit: nat)
    requires es != [] && Names(es[1..], r, rest, depth, limit, 2) && Ordered(r, Sooner)
    requires if es[0].Dir? && (limit == 0 || depth < limit)
             then Names(es[0].children, c, below, depth + 1, limit, 1) && Ordered(c, Sooner)
             else c == [] && below == []
    ensures Names(es, Inside(c) + After(r), below + rest, depth, limit, 2)
    ensures Ordered(Inside(c) + After(r), Sooner)
  {
    InsideNames(es, c, below, depth, limit);
    AfterNames(es, r, rest, depth, limit, 2);
    InsideOrdered(c);
    AfterOrdered(r);
    Across(c, r);
    hide *;
    NamesJoin(es, Inside(c), below, After(r), rest, depth, limit, 2);
    OrderedJoin(Inside(c), After(r), Sooner);
  }

  /** The addresses of the entries of a directory. */
  function Numbers(n: nat): (list: seq<Address>)
    ensures |list| == n && forall i :: 0 <= i < n ==> list[i] == [i]
  {
    seq(n, i requires 0 <= i < n => [i])
  }

  lemma {:induction false} PathsNamed(es: seq<Entry>)
    ensures Named(es, Numbers(|es|), Paths(es)) && Ordered(Numbers(|es|), Sooner)
    ensures forall a :: a in Numbers(|es|) <==> IsAddress(es, a) && |a| == 1
  {
    PathsAt(es);
    forall a | IsAddress(es, a) && |a| == 1 ensures a in Numbers(|es|) {
      assert Numbers(|es|)[a[0]] == a;
    }
  }

  lemma {:induction false} PathsAt(es: seq<Entry>)
    ensures forall i :: 0 <= i < |es| ==> Paths(es)[i] == es[i].path
  {
    if es != [] { PathsAt(es[1..]); }
  }
}
