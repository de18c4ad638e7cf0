/** list.h: intrusive circular doubly linked lists, rewired in place, and the sequences they stand for. */
module CircularList {
  class Node {
    var next: Node?
    var prev: Node?
    constructor () ensures next == this && prev == this { next, prev := this, this; }
  }

  predicate Distinct(s: seq<Node>)
  {
    forall i, j :: 0 <= i < j < |s| ==> s[i] != s[j]
  }

  /** next and prev lead around s, in order, and are inverse to each other. */
  ghost predicate Ring(s: seq<Node>)
    reads s
  {
    && s != [] && Distinct(s)
    && (forall i :: 0 <= i < |s| - 1 ==> s[i].next == s[i + 1])
    && (forall i :: 0 < i < |s| ==> s[i].prev == s[i - 1])
    && s[|s| - 1].next == s[0] && s[0].prev == s[|s| - 1]
  }

  predicate Disjoint(s: seq<Node>, t: seq<Node>)
  {
    forall x :: x in s ==> x !in t
  }

  /** Wherever one starts, it is the same ring. */
  lemma RingRotate(s: seq<Node>, t: seq<Node>)
    requires Ring(s + t)
    ensures Ring(t + s)
  {
    var u, v := s + t, t + s;
    var n, k := |u|, |s|;
    forall i | 0 <= i < n
      ensures v[i] == if i < n - k then u[i + k] else u[i - (n - k)]
    {}
  }

  /** On a ring next and prev undo each other. */
  lemma NextPrevInverse(s: seq<Node>, x: Node)
    requires Ring(s) && x in s
    ensures x.next != null && x.next in s && x.next.prev == x
    ensures x.prev != null && x.prev in s && x.prev.next == x
  {
    var i :| 0 <= i < |s| && s[i] == x;
    assert i + 1 < |s| ==> s[i + 1].prev == s[i];
    assert i > 0 ==> s[i - 1].next == s[i - 1 + 1];
  }

  /** INIT_LIST_HEAD: the empty list. */
  method InitListHead(list: Node)
    modifies list
    ensures Ring([list])
  {
    list.next := list;
    list.prev := list;
  }

  /** __list_add: new goes between the last node of s and its first. */
  method InsertBetween(new_: Node, prev: Node, next: Node, ghost s: seq<Node>)
    requires Ring(s) && new_ !in s && prev == s[|s| - 1] && next == s[0]
    modifies new_, prev, next
    ensures Ring(s + [new_])
  {
    next.prev := new_;
    new_.next := next;
    new_.prev := prev;
    prev.next := new_;
  }

  /** list_add: new becomes the first entry. */
  method ListAdd(new_: Node, head: Node, ghost xs: seq<Node>)
    requires Ring([head] + xs) && new_ !in [head] + xs
    modifies {new_} + set x | x in [head] + xs
    ensures Ring([head] + [new_] + xs)
  {
    RingRotate([head], xs);
    InsertBetween(new_, head, head.next, xs + [head]);
    assert xs + [head] + [new_] == xs + ([head] + [new_]);
    RingRotate(xs, [head] + [new_]);
  }

  /** list_add_tail: new becomes the last entry. */
  method ListAddTail(new_: Node, head: Node, ghost xs: seq<Node>)
    requires Ring([head] + xs) && new_ !in [head] + xs
    modifies {new_} + set x | x in [head] + xs
    ensures Ring([head] + xs + [new_])
  {
    InsertBetween(new_, head.prev, head, [head] + xs);
  }

  /** __list_del: what lies between prev and next leaves the ring. */
  method UnlinkBetween(prev: Node, next: Node, ghost s: seq<Node>, ghost t: seq<Node>)
    requires Ring(s + t) && s != [] && next == s[0] && prev == s[|s| - 1]
    modifies prev, next
    ensures Ring(s)
    ensures forall i :: 0 <= i < |t| - 1 ==> t[i].next == t[i + 1]
    ensures forall i :: 0 < i < |t| ==> t[i].prev == t[i - 1]
  {
    ghost var u := s + t;
    assert forall i :: 0 <= i < |t| ==> t[i] == u[|s| + i];
    assert forall i :: 0 <= i < |s| ==> s[i] == u[i];
    next.prev := prev;
    prev.next := next;
  }

  /** Seen from the entry, the rest of the ring follows it. */
  lemma FromEntry(head: Node, a: seq<Node>, e: Node, b: seq<Node>)
    requires Ring([head] + a + [e] + b)
    ensures Ring(b + [head] + a + [e])
  {
    assert [head] + a + [e] + b == ([head] + a + [e]) + b;
    RingRotate([head] + a + [e], b);
    assert b + ([head] + a + [e]) == b + [head] + a + [e];
  }

  /** The neighbours of the last node are the one before it and the first. */
  lemma LastNeighbours(rest: seq<Node>, e: Node)
    requires Ring(rest + [e]) && rest != []
    ensures e.prev == rest[|rest| - 1] && e.next == rest[0]
  {
    var u := rest + [e];
    assert u[|rest|] == e && u[0] == rest[0] && u[|rest| - 1] == rest[|rest| - 1];
  }

  /** __list_del_entry: the entry leaves the ring and keeps its own pointers. */
  method UnlinkEntry(entry: Node, ghost head: Node, ghost a: seq<Node>, ghost b: seq<Node>)
    requires Ring([head] + a + [entry] + b)
    modifies set x | x in [head] + a + b
    ensures Ring([head] + a + b)
  {
    FromEntry(head, a, entry, b);
    ghost var rest := b + [head] + a;
    assert rest + [entry] == b + [head] + a + [entry];
    LastNeighbours(rest, entry);
    UnlinkBetween(entry.prev, entry.next, rest, [entry]);
    assert rest == b + ([head] + a);
    RingRotate(b, [head] + a);
  }

  /** list_del: LIST_POISON1 and LIST_POISON2 are null here. */
  method ListDel(entry: Node, ghost head: Node, ghost a: seq<Node>, ghost b: seq<Node>)
    requires Ring([head] + a + [entry] + b)
    modifies set x | x in [head] + a + [entry] + b
    ensures Ring([head] + a + b) && entry.next == null && entry.prev == null
  {
    UnlinkEntry(entry, head, a, b);
    NotAmong(entry, [head] + a, b);
    entry.next := null;
    entry.prev := null;
  }

  lemma NotAmong(e: Node, a: seq<Node>, b: seq<Node>)
    requires Distinct(a + [e] + b)
    ensures e !in a + b
  {
    var u := a + [e] + b;
    forall i | 0 <= i < |a + b|
      ensures (a + b)[i] != e
    {
      assert u[|a|] == e;
      if i < |a| { assert u[i] == (a + b)[i]; } else { assert u[i + 1] == (a + b)[i]; }
    }
  }

  /** list_del_init: the entry becomes an empty list of its own. */
  method ListDelInit(entry: Node, ghost head: Node, ghost a: seq<Node>, ghost b: seq<Node>)
    requires Ring([head] + a + [entry] + b)
    modifies set x | x in [head] + a + [entry] + b
    ensures Ring([head] + a + b) && Ring([entry])
  {
    UnlinkEntry(entry, head, a, b);
    NotAmong(entry, [head] + a, b);
    InitListHead(entry);
  }

  /** list_replace: the new node takes the place of the old one, alone in its ring or not. */
  method ListReplace(old_: Node, new_: Node, ghost s: seq<Node>)
    requires Ring([old_] + s) && new_ !in [old_] + s
    modifies new_, old_.next, old_.prev
    ensures Ring([new_] + s)
  {
    ghost var u := [old_] + s;
    assert forall i :: 0 <= i < |s| ==> s[i] == u[i + 1];
    assert u[0] == old_ && (s != [] ==> old_.next == s[0] && old_.prev == s[|s| - 1]);
    new_.next := old_.next;
    new_.next.prev := new_;
    new_.prev := old_.prev;
    new_.prev.next := new_;
  }

  /** list_replace_init. */
  method ListReplaceInit(old_: Node, new_: Node, ghost s: seq<Node>)
    requires Ring([old_] + s) && new_ !in [old_] + s
    modifies new_, old_, old_.next, old_.prev
    ensures Ring([new_] + s) && Ring([old_])
  {
    ListReplace(old_, new_, s);
    assert ([old_] + s)[0] == old_;
    assert forall i :: 0 <= i < |s| ==> s[i] == ([old_] + s)[i + 1];
    InitListHead(old_);
  }

  // ---------------------------------------------------------------- moving an entry

  /** list_move to the front of another list. */
  method ListMove(entry: Node, head: Node, ghost from: Node, ghost a: seq<Node>, ghost b: seq<Node>,
                  ghost ys: seq<Node>)
    requires Ring([from] + a + [entry] + b)
    requires Ring([head] + ys) && Disjoint([from] + a + [entry] + b, [head] + ys)
    modifies set x | x in [from] + a + [entry] + b + [head] + ys
    ensures Ring([from] + a + b) && Ring([head] + [entry] + ys)
  {
    Members(from, a, entry, b);
    UnlinkEntry(entry, from, a, b);
    NotAmong(entry, [from] + a, b);
    ListAdd(entry, head, ys);
  }

  lemma Members(head: Node, a: seq<Node>, e: Node, b: seq<Node>)
    ensures forall x :: x in [head] + a + b ==> x in [head] + a + [e] + b
    ensures e in [head] + a + [e] + b
  {}

  /** list_move within one list. */
  method ListMoveWithin(entry: Node, head: Node, ghost a: seq<Node>, ghost b: seq<Node>)
    requires Ring([head] + a + [entry] + b)
    modifies set x | x in [head] + a + [entry] + b
    ensures Ring([head] + [entry] + (a + b))
  {
    UnlinkEntry(entry, head, a, b);
    NotAmong(entry, [head] + a, b);
    assert [head] + a + b == [head] + (a + b);
    ListAdd(entry, head, a + b);
  }

  /** list_move_tail to the end of another list. */
  method ListMoveTail(entry: Node, head: Node, ghost from: Node, ghost a: seq<Node>, ghost b: seq<Node>,
                      ghost ys: seq<Node>)
    requires Ring([from] + a + [entry] + b)
    requires Ring([head] + ys) && Disjoint([from] + a + [entry] + b, [head] + ys)
    modifies set x | x in [from] + a + [entry] + b + [head] + ys
    ensures Ring([from] + a + b) && Ring([head] + ys + [entry])
  {
    Members(from, a, entry, b);
    UnlinkEntry(entry, from, a, b);
    NotAmong(entry, [from] + a, b);
    ListAddTail(entry, head, ys);
  }

  /** list_move_tail within one list. */
  method ListMoveTailWithin(entry: Node, head: Node, ghost a: seq<Node>, ghost b: seq<Node>)
    requires Ring([head] + a + [entry] + b)
    modifies set x | x in [head] + a + [entry] + b
    ensures Ring([head] + (a + b) + [entry])
  {
    UnlinkEntry(entry, head, a, b);
    NotAmong(entry, [head] + a, b);
    assert [head] + a + b == [head] + (a + b);
    ListAddTail(entry, head, a + b);
  }

  // ---------------------------------------------------------------- questions

  /** list_empty. */
  method ListEmpty(head: Node, ghost xs: seq<Node>) returns (b: bool)
    requires Ring([head] + xs)
    ensures b <==> xs == []
  {
    assert ([head] + xs)[0] == head && (xs != [] ==> ([head] + xs)[1] == xs[0]);
    b := head.next == head;
  }

  /** list_is_last. */
  method ListIsLast(entry: Node, head: Node, ghost a: seq<Node>, ghost b: seq<Node>) returns (r: bool)
    requires Ring([head] + a + [entry] + b)
    ensures r <==> b == []
  {
    ghost var u, k := [head] + a + [entry] + b, 1 + |a|;
    assert u[k] == entry && u[0] == head && (b != [] ==> u[k + 1] == b[0]);
    r := entry.next == head;
  }

  /** list_is_singular. */
  method ListIsSingular(head: Node, ghost xs: seq<Node>) returns (b: bool)
    requires Ring([head] + xs)
    ensures b <==> |xs| == 1
  {
    ghost var u := [head] + xs;
    assert u[0] == head && (xs != [] ==> u[1] == xs[0] && u[|xs|] == xs[|xs| - 1]);
    var empty := ListEmpty(head, xs);
    b := !empty && head.next == head.prev;
  }

  /** list_rotate_left: the first entry becomes the last. */
  method ListRotateLeft(head: Node, ghost xs: seq<Node>)
    requires Ring([head] + xs)
    modifies set x | x in [head] + xs
    ensures Ring([head] + if xs == [] then [] else xs[1..] + [xs[0]])
  {
    var empty := ListEmpty(head, xs);
    if !empty {
      var first := head.next;
      assert ([head] + xs)[1] == xs[0] == first;
      assert [head] + xs == [head] + [] + [first] + xs[1..];
      assert [] + xs[1..] == xs[1..];
      assert [head] + (xs[1..] + [first]) == [head] + xs[1..] + [first];
      ListMoveTailWithin(first, head, [], xs[1..]);
    }
  }

  // ---------------------------------------------------------------- cutting and splicing

  /** A chain of nodes linked both ways. */
  ghost predicate Chain(s: seq<Node>)
    reads s
  {
    && (forall i :: 0 <= i < |s| - 1 ==> s[i].next == s[i + 1])
    && (forall i :: 0 < i < |s| ==> s[i].prev == s[i - 1])
  }

  /** A head linked to both ends of a chain closes a ring. */
  lemma CloseRing(head: Node, s: seq<Node>)
    requires Distinct(s) && head !in s && Chain(s)
    requires if s == [] then head.next == head == head.prev
             else head.next == s[0] && s[0].prev == head && head.prev == s[|s| - 1] && s[|s| - 1].next == head
    ensures Ring([head] + s)
  {}

  /** A ring around a head is a chain between two links to the head. */
  lemma OpenRing(head: Node, s: seq<Node>)
    requires Ring([head] + s)
    ensures Distinct(s) && head !in s && Chain(s)
    ensures if s == [] then head.next == head == head.prev
            else head.next == s[0] && s[0].prev == head && head.prev == s[|s| - 1] && s[|s| - 1].next == head
  {
    var u := [head] + s;
    assert u[0] == head && forall i :: 0 <= i < |s| ==> s[i] == u[i + 1];
  }

  /** A chain splits into two, linked to each other. */
  lemma SplitChain(a: seq<Node>, b: seq<Node>)
    requires Chain(a + b) && Distinct(a + b)
    ensures Chain(a) && Chain(b) && Distinct(a) && Distinct(b) && Disjoint(a, b)
    ensures a != [] && b != [] ==> a[|a| - 1].next == b[0] && b[0].prev == a[|a| - 1]
  {
    var u := a + b;
    assert forall i :: 0 <= i < |a| ==> a[i] == u[i];
    assert forall i :: 0 <= i < |b| ==> b[i] == u[|a| + i];
  }

  /** __list_cut_position: list takes the entries up to and including the given one. */
  method CutAfter(list: Node, head: Node, entry: Node, ghost a: seq<Node>, ghost b: seq<Node>)
    requires Ring([head] + (a + b)) && a != [] && entry == a[|a| - 1] && list !in [head] + (a + b)
    modifies {list} + set x | x in [head] + (a + b)
    ensures Ring([list] + a) && Ring([head] + b)
  {
    OpenRing(head, a + b);
    SplitChain(a, b);
    assert (a + b)[0] == a[0] && (a + b)[|a + b| - 1] == if b == [] then entry else b[|b| - 1];
    var newFirst := entry.next;
    list.next := head.next;
    list.next.prev := list;
    list.prev := entry;
    entry.next := list;
    head.next := newFirst;
    newFirst.prev := head;
    CloseRing(list, a);
    CloseRing(head, b);
  }

  lemma HeadFacts(head: Node, xs: seq<Node>)
    requires Ring([head] + xs)
    ensures head !in xs
    ensures if xs == [] then head.next == head == head.prev else head.next == xs[0] && head.prev == xs[|xs| - 1]
  {
    OpenRing(head, xs);
  }

  /** list_cut_position: an empty list is left alone, and so is list then; cutting at the head itself empties list. */
  method ListCutPosition(list: Node, head: Node, entry: Node, ghost a: seq<Node>, ghost b: seq<Node>)
    requires Ring([head] + (a + b)) && list !in [head] + (a + b)
    requires entry == if a == [] then head else a[|a| - 1]
    modifies {list} + set x | x in [head] + (a + b)
    ensures a + b == [] ==> Ring([head]) && list.next == old(list.next) && list.prev == old(list.prev)
    ensures a + b != [] ==> Ring([list] + a) && Ring([head] + b)
  {
    HeadFacts(head, a + b);
    var empty := ListEmpty(head, a + b);
    if empty {
      assert [head] + (a + b) == [head];
      return;
    }
    var singular := ListIsSingular(head, a + b);
    if singular { OnlyEntry(a, b); }
    if singular && head.next != entry && head != entry {
      assert false;
    }
    CutNonEmpty(list, head, entry, a, b);
  }

  method CutNonEmpty(list: Node, head: Node, entry: Node, ghost a: seq<Node>, ghost b: seq<Node>)
    requires Ring([head] + (a + b)) && list !in [head] + (a + b) && head !in a + b
    requires entry == if a == [] then head else a[|a| - 1]
    modifies {list} + set x | x in [head] + (a + b)
    ensures Ring([list] + a) && Ring([head] + b)
  {
    LastIn(a, b);
    if entry == head {
      assert [list] + a == [list] && a + b == b;
      InitListHead(list);
    } else {
      CutAfter(list, head, entry, a, b);
    }
  }

  lemma OnlyEntry(a: seq<Node>, b: seq<Node>)
    requires |a + b| == 1
    ensures a != [] ==> a[|a| - 1] == (a + b)[0]
  {}

  lemma LastIn(a: seq<Node>, b: seq<Node>)
    ensures a != [] ==> a[|a| - 1] in a + b
  {
    assert a != [] ==> (a + b)[|a| - 1] == a[|a| - 1];
  }

  lemma DistinctJoin(s: seq<Node>, ys: seq<Node>)
    requires Distinct(s) && Distinct(ys) && Disjoint(ys, s)
    ensures Distinct(s + ys)
  {
    var u := s + ys;
    forall i, j | 0 <= i < j < |u|
      ensures u[i] != u[j]
    {
      if i < |s| <= j { assert s[i] in s && ys[j - |s|] in ys; }
    }
  }

  /** The four assignments of __list_splice: a chain goes between the last node of a ring and its first. */
  method SpliceChain(first: Node, last: Node, prev: Node, next: Node, ghost s: seq<Node>, ghost ys: seq<Node>)
    requires Ring(s) && prev == s[|s| - 1] && next == s[0]
    requires Chain(ys) && Distinct(ys) && Disjoint(ys, s) && ys != [] && first == ys[0] && last == ys[|ys| - 1]
    modifies first`prev, prev`next, last`next, next`prev
    ensures Ring(s + ys)
  {
    hide Distinct, Disjoint;
    DistinctJoin(s, ys);
    Apart(s, ys);
    first.prev := prev;
    prev.next := first;
    last.next := next;
    next.prev := last;
  }

  /** Every node of a ring or chain has its own place. */
  lemma Apart(s: seq<Node>, ys: seq<Node>)
    requires Distinct(s + ys)
    ensures forall i, j :: 0 <= i < |s| && 0 <= j < |ys| ==> s[i] != ys[j]
    ensures forall i, j :: 0 <= i < j < |s| ==> s[i] != s[j]
    ensures forall i, j :: 0 <= i < j < |ys| ==> ys[i] != ys[j]
  {
    var u := s + ys;
    assert forall i :: 0 <= i < |s| ==> s[i] == u[i];
    assert forall j :: 0 <= j < |ys| ==> ys[j] == u[|s| + j];
  }

  /** __list_splice between the head and its first entry, or between the last entry and the head. */
  method SpliceBetween(list: Node, prev: Node, next: Node, ghost head: Node, ghost ys: seq<Node>, ghost a: seq<Node>,
                       ghost b: seq<Node>)
    requires Ring([list] + ys) && ys != [] && Ring([head] + (a + b)) && Disjoint([list] + ys, [head] + (a + b))
    requires prev == (if a == [] then head else a[|a| - 1]) && next == (if b == [] then head else b[0])
    modifies set x | x in [list] + ys + [head] + (a + b)
    ensures Ring([head] + (a + ys + b))
    ensures list.next == old(list.next) && list.prev == old(list.prev)
  {
    hide Ring, Chain, Distinct, Disjoint;
    OpenRing(list, ys);
    Reordered(list, head, ys, a, b);
    RingRotate([head] + a, b);
    SpliceChain(list.next, list.prev, prev, next, b + ([head] + a), ys);
    assert b + ([head] + a) + ys == b + ([head] + a + ys);
    RingRotate(b, [head] + a + ys);
    assert [head] + a + ys + b == [head] + (a + ys + b);
  }

  /** Seen from behind a, the ring ends with a, and what is spliced lies apart from it. */
  lemma Reordered(list: Node, head: Node, ys: seq<Node>, a: seq<Node>, b: seq<Node>)
    requires Disjoint([list] + ys, [head] + (a + b)) && Distinct([list] + ys)
    ensures [head] + (a + b) == ([head] + a) + b && Disjoint(ys, b + ([head] + a)) && list !in ys
            && list !in b + ([head] + a)
  {
    assert forall x :: x in b + ([head] + a) ==> x in [head] + (a + b);
    assert forall x :: x in ys ==> x in [list] + ys;
    assert list in [list] + ys;
    forall i | 0 <= i < |ys|
      ensures ys[i] != list
    {
      assert ([list] + ys)[0] == list && ([list] + ys)[i + 1] == ys[i];
    }
  }

  /** list_splice: the entries of list come first; list itself is left as it was. */
  method ListSplice(list: Node, head: Node, ghost ys: seq<Node>, ghost xs: seq<Node>)
    requires Ring([list] + ys) && Ring([head] + xs) && Disjoint([list] + ys, [head] + xs)
    modifies set x | x in [list] + ys + [head] + xs
    ensures Ring([head] + (ys + xs))
    ensures list.next == old(list.next) && list.prev == old(list.prev)
  {
    var empty := ListEmpty(list, ys);
    HeadFacts(head, xs);
    assert ys == [] ==> ys + xs == xs;
    assert [] + xs == xs && [] + ys + xs == ys + xs;
    if !empty {
      SpliceBetween(list, head, head.next, head, ys, [], xs);
    }
  }

  /** list_splice_tail: the entries of list come last. */
  method ListSpliceTail(list: Node, head: Node, ghost ys: seq<Node>, ghost xs: seq<Node>)
    requires Ring([list] + ys) && Ring([head] + xs) && Disjoint([list] + ys, [head] + xs)
    modifies set x | x in [list] + ys + [head] + xs
    ensures Ring([head] + (xs + ys))
    ensures list.next == old(list.next) && list.prev == old(list.prev)
  {
    var empty := ListEmpty(list, ys);
    HeadFacts(head, xs);
    assert ys == [] ==> xs + ys == xs;
    assert xs + [] == xs && xs + ys + [] == xs + ys;
    if !empty {
      SpliceBetween(list, head.prev, head, head, ys, xs, []);
    }
  }

  lemma ListOutside(list: Node, ys: seq<Node>, head: Node, xs: seq<Node>)
    requires Ring([list] + ys) && Disjoint([list] + ys, [head] + xs)
    ensures list !in [head] + (ys + xs) && list !in [head] + (xs + ys)
  {
    OpenRing(list, ys);
    assert list in [list] + ys;
  }

  /** list_splice_init: list is empty afterwards. */
  method ListSpliceInit(list: Node, head: Node, ghost ys: seq<Node>, ghost xs: seq<Node>)
    requires Ring([list] + ys) && Ring([head] + xs) && Disjoint([list] + ys, [head] + xs)
    modifies set x | x in [list] + ys + [head] + xs
    ensures Ring([head] + (ys + xs)) && Ring([list])
  {
    var empty := ListEmpty(list, ys);
    ListOutside(list, ys, head, xs);
    if !empty {
      ListSplice(list, head, ys, xs);
      InitListHead(list);
    } else {
      assert ys + xs == xs && [list] + ys == [list];
    }
  }

  /** list_splice_tail_init. */
  method ListSpliceTailInit(list: Node, head: Node, ghost ys: seq<Node>, ghost xs: seq<Node>)
    requires Ring([list] + ys) && Ring([head] + xs) && Disjoint([list] + ys, [head] + xs)
    modifies set x | x in [list] + ys + [head] + xs
    ensures Ring([head] + (xs + ys)) && Ring([list])
  {
    var empty := ListEmpty(list, ys);
    ListOutside(list, ys, head, xs);
    if !empty {
      ListSpliceTail(list, head, ys, xs);
      InitListHead(list);
    } else {
      assert xs + ys == xs && [list] + ys == [list];
    }
  }

  /** Cutting a list anywhere into an empty one and splicing the piece back restores it. */
  method CutAndRestore(list: Node, head: Node, entry: Node, ghost a: seq<Node>, ghost b: seq<Node>)
    requires Ring([head] + (a + b)) && Ring([list]) && list !in [head] + (a + b)
    requires entry == if a == [] then head else a[|a| - 1]
    modifies {list} + set x | x in [head] + (a + b)
    ensures Ring([head] + (a + b)) && Ring([list])
  {
    OpenRing(head, a + b);
    SplitChain(a, b);
    ListCutPosition(list, head, entry, a, b);
    if a + b == [] {
      assert [list] + a == [list] && [head] + b == [head];
    }
    PiecesApart(list, head, a, b);
    ListSpliceInit(list, head, a, b);
  }

  lemma PiecesApart(list: Node, head: Node, a: seq<Node>, b: seq<Node>)
    requires list !in [head] + (a + b) && head !in a + b && Disjoint(a, b)
    ensures Disjoint([list] + a, [head] + b)
  {
    forall x | x in [list] + a
      ensures x !in [head] + b
    {
      if x == list { assert list !in b; }
    }
  }
}
