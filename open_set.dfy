/**
  The entries of the search frontier and the order in which they are popped.
  Each iteration of the search sorts the frontier with a stable sort keyed on
  cost plus heuristic estimate and removes the head; this module models that
  sort and proves that its head is the first entry of least priority.
 */
module OpenSet {

  /** A frontier entry: a location, the cost at which it was reached when the
      entry was pushed, and the heuristic estimate computed at that moment. */
  datatype Node = Node(name: string, cost: nat, heuristic: int)

  /** The sort key. */
  function Priority(e: Node): int {
    e.cost + e.heuristic
  }

  /** Priorities never decrease from left to right. */
  predicate Sorted(s: seq<Node>) {
    forall i, j :: 0 <= i < j < |s| ==> Priority(s[i]) <= Priority(s[j])
  }

  /** Places `x` in front of the first entry whose priority is not smaller,
      so that `x` goes before entries of equal priority. */
  function Insert(x: Node, s: seq<Node>): (r: seq<Node>)
    requires Sorted(s)
    ensures multiset(r) == multiset(s) + multiset{x}
    ensures Sorted(r)
    ensures |r| == |s| + 1
  {
    if s == [] || Priority(x) <= Priority(s[0]) then
      [x] + s
    else
      var rest := Insert(x, s[1..]);
      assert s == [s[0]] + s[1..];
      InsertAfterHead(x, s, rest);
      [s[0]] + rest
  }

  /** The step of Insert that keeps the head of `s` in front. */
  lemma InsertAfterHead(x: Node, s: seq<Node>, rest: seq<Node>)
    requires Sorted(s) && s != [] && Priority(s[0]) < Priority(x)
    requires multiset(rest) == multiset(s[1..]) + multiset{x} && Sorted(rest)
    ensures Sorted([s[0]] + rest)
  {
    var r := [s[0]] + rest;
    forall i, j | 0 <= i < j < |r| ensures Priority(r[i]) <= Priority(r[j]) {
      if i == 0 {
        assert r[j] == rest[j - 1];
        assert rest[j - 1] in multiset(rest);
        if rest[j - 1] != x {
          assert rest[j - 1] in multiset(s[1..]);
          var k :| 0 <= k < |s[1..]| && s[1..][k] == rest[j - 1];
          assert s[1..][k] == s[k + 1];
        }
      } else {
        assert r[i] == rest[i - 1] && r[j] == rest[j - 1];
      }
    }
  }

  /** A stable sort of the frontier by priority (insertion sort). */
  function SortByPriority(s: seq<Node>): (r: seq<Node>)
    ensures multiset(r) == multiset(s)
    ensures |r| == |s|
    ensures Sorted(r)
  {
    if s == [] then [] else
      assert s == [s[0]] + s[1..];
      Insert(s[0], SortByPriority(s[1..]))
  }

  /** The entries of `s` whose priority is `p`, in their order in `s`. */
  function WithPriority(s: seq<Node>, p: int): (r: seq<Node>)
    ensures |r| <= |s|
    ensures forall i :: 0 <= i < |r| ==> Priority(r[i]) == p && r[i] in s
    decreases |s|
  {
    if s == [] then []
    else (if Priority(s[0]) == p then [s[0]] else []) + WithPriority(s[1..], p)
  }

  /** WithPriority takes a prepended entry or leaves it out. */
  lemma WithPriorityCons(x: Node, t: seq<Node>, p: int)
    ensures WithPriority([x] + t, p) == (if Priority(x) == p then [x] else []) + WithPriority(t, p)
  {
    assert ([x] + t)[0] == x && ([x] + t)[1..] == t;
  }

  /** Inserting `x` puts it in front of every entry of its own priority. */
  lemma {:induction false} InsertKeepsTies(x: Node, s: seq<Node>, p: int)
    requires Sorted(s)
    ensures WithPriority(Insert(x, s), p) == (if Priority(x) == p then [x] else []) + WithPriority(s, p)
    decreases |s|
  {
    if s == [] || Priority(x) <= Priority(s[0]) {
      assert Insert(x, s) == [x] + s;
      WithPriorityCons(x, s, p);
    } else {
      InsertKeepsTies(x, s[1..], p);
      assert Insert(x, s) == [s[0]] + Insert(x, s[1..]);
      assert s == [s[0]] + s[1..];
      TieBehindCheaperHead(x, s[0], Insert(x, s[1..]), s[1..], p);
    }
  }

  /** An entry `y` cheaper than `x` stays out of x's priority class, so
      putting `y` in front commutes with putting `x` in front of that class. */
  lemma TieBehindCheaperHead(x: Node, y: Node, rest: seq<Node>, t: seq<Node>, p: int)
    requires Priority(y) < Priority(x)
    requires WithPriority(rest, p) == (if Priority(x) == p then [x] else []) + WithPriority(t, p)
    ensures WithPriority([y] + rest, p) == (if Priority(x) == p then [x] else []) + WithPriority([y] + t, p)
  {
    WithPriorityCons(y, rest, p);
    WithPriorityCons(y, t, p);
  }

  /** The sort is stable: entries of equal priority keep their relative order. */
  lemma {:induction false} SortKeepsTies(s: seq<Node>, p: int)
    ensures WithPriority(SortByPriority(s), p) == WithPriority(s, p)
    decreases |s|
  {
    if s != [] {
      SortKeepsTies(s[1..], p);
      InsertKeepsTies(s[0], SortByPriority(s[1..]), p);
    }
  }

  /** The position of the first entry of least priority. */
  function FirstMinimum(s: seq<Node>): (i: nat)
    requires |s| > 0
    ensures i < |s|
    ensures forall j :: 0 <= j < i ==> Priority(s[i]) < Priority(s[j])
    ensures forall j :: i < j < |s| ==> Priority(s[i]) <= Priority(s[j])
  {
    if |s| == 1 then 0 else
      var m := 1 + FirstMinimum(s[1..]);
      if Priority(s[0]) <= Priority(s[m]) then 0 else m
  }

  /** Sorting and taking the head pops the first entry of least priority. */
  lemma {:induction false} SortedHeadIsFirstMinimum(s: seq<Node>)
    requires |s| > 0
    ensures SortByPriority(s)[0] == s[FirstMinimum(s)]
    decreases |s|
  {
    if |s| > 1 {
      SortedHeadIsFirstMinimum(s[1..]);
    }
  }

  /** The popped head has a priority no entry of the frontier undercuts. */
  lemma SortedHeadIsMinimal(s: seq<Node>)
    requires |s| > 0
    ensures forall e :: e in s ==> Priority(SortByPriority(s)[0]) <= Priority(e)
  {
    var r := SortByPriority(s);
    forall e | e in s ensures Priority(r[0]) <= Priority(e) {
      assert e in multiset(r);
      var i :| 0 <= i < |r| && r[i] == e;
      if i > 0 {
        assert Priority(r[0]) <= Priority(r[i]);
      }
    }
  }

  /** Popping the head of the sorted frontier leaves every other entry in it. */
  lemma PopKeepsOthers(s: seq<Node>)
    requires |s| > 0
    ensures forall e :: e in s && e != SortByPriority(s)[0] ==> e in SortByPriority(s)[1..]
    ensures forall e :: e in SortByPriority(s)[1..] ==> e in s
  {
    var r := SortByPriority(s);
    assert r == [r[0]] + r[1..];
    forall e | e in s && e != r[0] ensures e in r[1..] {
      assert e in multiset(r);
    }
    forall e | e in r[1..] ensures e in s {
      assert e in multiset(s);
    }
  }
}
