/**
 * The open-addressing hash table with tombstones and an insertion-order list that holds the members of
 * a JSON object (json-c's linkhash.c), as a refinement of an association list in insertion order.
 */
module HashTable {
  import opened Arith

  // ----- What the table stands for -----

  datatype Pair<K, V> = Pair(key: K, value: V)

  predicate Has<K(==), V>(l: seq<Pair<K, V>>, k: K) {
    exists i :: 0 <= i < |l| && l[i].key == k
  }

  predicate DistinctKeys<K(==), V>(l: seq<Pair<K, V>>) {
    forall i, j :: 0 <= i < j < |l| ==> l[i].key != l[j].key
  }

  /** Position of the first pair with this key, or the length. */
  function Find<K(==), V>(l: seq<Pair<K, V>>, k: K): (i: nat)
    ensures i <= |l|
    ensures i < |l| ==> l[i].key == k
    ensures forall j :: 0 <= j < i ==> l[j].key != k
  {
    if l == [] || l[0].key == k then 0 else Find(l[1..], k) + 1
  }

  function Get<K(==), V>(l: seq<Pair<K, V>>, k: K): Option<V> {
    var i := Find(l, k);
    if i < |l| then Some(l[i].value) else None
  }

  /** A known key keeps its place and gets the new value; a new one goes to the end. */
  function Put<K(==), V>(l: seq<Pair<K, V>>, k: K, v: V): (r: seq<Pair<K, V>>) {
    var i := Find(l, k);
    if i < |l| then l[i := Pair(k, v)] else l + [Pair(k, v)]
  }

  function Without<K(==), V>(l: seq<Pair<K, V>>, k: K): (r: seq<Pair<K, V>>) {
    var i := Find(l, k);
    if i < |l| then RemoveAt(l, i) else l
  }

  // ----- The table -----

  datatype Cell<K, V> = Empty | Freed | Live(key: K, value: V)

  datatype Link = Link(next: int, prev: int)

  /** Where the probe for a key starts. */
  function Home<K>(hash: K -> nat, k: K, m: nat): (h: nat)
    requires m > 0
    ensures h < m
  {
    hash(k) % m
  }

  /** The slot d steps after h, going round. */
  function Step(h: nat, d: nat, m: nat): (n: nat)
    requires h < m && d < m
    ensures n < m
  {
    if h + d < m then h + d else h + d - m
  }

  function Dist(h: nat, n: nat, m: nat): (d: nat)
    requires h < m && n < m
    ensures d < m && Step(h, d, m) == n
  {
    if h <= n then n - h else n + m - h
  }

  /** No slot from the home h up to n, going round, is empty. */
  predicate Reached<K, V>(c: seq<Cell<K, V>>, h: nat, n: nat)
    requires h < |c| && n < |c|
  {
    forall d :: 0 <= d < Dist(h, n, |c|) ==> !c[Step(h, d, |c|)].Empty?
  }

  /** order lists the live slots; every key is found by probing from its home and occurs once. */
  ghost predicate Placed<K, V>(c: seq<Cell<K, V>>, hash: K -> nat, order: seq<nat>) {
    && |c| > 0
    && (forall i :: 0 <= i < |order| ==> order[i] < |c| && c[order[i]].Live?)
    && (forall n :: 0 <= n < |c| && c[n].Live? ==> n in order && Reached(c, Home(hash, c[n].key, |c|), n))
    && (forall i, j :: 0 <= i < j < |order| ==> order[i] != order[j] && c[order[i]].key != c[order[j]].key)
  }

  /** The doubly linked list through the slots visits order. */
  ghost predicate Linked(links: seq<Link>, head: int, tail: int, order: seq<nat>) {
    && (forall i :: 0 <= i < |order| ==> order[i] < |links|)
    && head == At(order, 0) && tail == At(order, |order| - 1)
    && (forall i :: 0 <= i < |order| ==> links[order[i]] == Link(At(order, i + 1), At(order, i - 1)))
  }

  /** The null pointer stands at both ends. */
  function At(order: seq<nat>, i: int): int {
    if 0 <= i < |order| then order[i] else -1
  }

  ghost function Entries<K, V>(c: seq<Cell<K, V>>, order: seq<nat>): (l: seq<Pair<K, V>>)
    requires forall i :: 0 <= i < |order| ==> order[i] < |c| && c[order[i]].Live?
    ensures |l| == |order|
    ensures forall i :: 0 <= i < |l| ==> l[i] == Pair(c[order[i]].key, c[order[i]].value)
  {
    seq(|order|, i requires 0 <= i < |order| => Pair(c[order[i]].key, c[order[i]].value))
  }

  // ----- One slot changes -----

  /** Filling a free slot that a probe from the key's home reached. */
  lemma PlaceKeeps<K, V>(c: seq<Cell<K, V>>, hash: K -> nat, order: seq<nat>, n: nat, k: K, v: V)
    requires Placed(c, hash, order) && n < |c| && !c[n].Live? && Reached(c, Home(hash, k, |c|), n)
    requires !Has(Entries(c, order), k)
    ensures Placed(c[n := Live(k, v)], hash, order + [n])
    ensures Entries(c[n := Live(k, v)], order + [n]) == Entries(c, order) + [Pair(k, v)]
  {
    var c' := c[n := Live(k, v)];
    forall i | 0 <= i < |order| ensures order[i] != n && c'[order[i]] == c[order[i]] && c[order[i]].key != k {
      assert Entries(c, order)[i].key == c[order[i]].key;
    }
    forall x | 0 <= x < |c'| && c'[x].Live? ensures x in order + [n] && Reached(c', Home(hash, c'[x].key, |c'|), x) {
    }
  }

  lemma ReplaceKeeps<K, V>(c: seq<Cell<K, V>>, hash: K -> nat, order: seq<nat>, n: nat, i: nat, v: V)
    requires Placed(c, hash, order) && i < |order| && n == order[i]
    ensures n < |c| && c[n].Live?
    ensures Placed(c[n := Live(c[n].key, v)], hash, order)
    ensures Entries(c[n := Live(c[n].key, v)], order) == Entries(c, order)[i := Pair(c[n].key, v)]
  {
  }

  /** A deleted slot becomes a tombstone, so no probe path breaks. */
  lemma FreeKeeps<K, V>(c: seq<Cell<K, V>>, hash: K -> nat, order: seq<nat>, i: nat)
    requires Placed(c, hash, order) && i < |order|
    ensures Placed(c[order[i] := Freed], hash, RemoveAt(order, i))
    ensures Entries(c[order[i] := Freed], RemoveAt(order, i)) == RemoveAt(Entries(c, order), i)
  {
    var n := order[i];
    var c', order' := c[n := Freed], RemoveAt(order, i);
    hide RemoveAt, Reached;
    forall x | 0 <= x < |c'| && c'[x].Live? ensures x in order' && Reached(c', Home(hash, c'[x].key, |c'|), x) {
      var j :| 0 <= j < |order| && order[j] == x;
      assert order'[if j < i then j else j - 1] == x;
      ReachedStill(c, c', Home(hash, c[x].key, |c|), x);
    }
    forall j | 0 <= j < |order'| ensures order'[j] != n && order'[j] < |c| {
      var k := if j < i then j else j + 1;
      assert order'[j] == order[k];
    }
  }

  lemma ReachedStill<K, V>(c: seq<Cell<K, V>>, c': seq<Cell<K, V>>, h: nat, n: nat)
    requires |c| == |c'| && h < |c| && n < |c| && Reached(c, h, n)
    requires forall x :: 0 <= x < |c| && !c[x].Empty? ==> !c'[x].Empty?
    ensures Reached(c', h, n)
  {}

  /** The key stands where a probe from its home finds it, in front of every empty slot. */
  lemma FindSlot<K, V>(c: seq<Cell<K, V>>, hash: K -> nat, order: seq<nat>, k: K, n: nat)
    requires Placed(c, hash, order) && n < |c| && c[n].Live? && c[n].key == k
    ensures Find(Entries(c, order), k) < |order| && order[Find(Entries(c, order), k)] == n && Has(Entries(c, order), k)
  {
    var i :| 0 <= i < |order| && order[i] == n;
    var l := Entries(c, order);
    assert l[i].key == k;
    assert Find(l, k) <= i;
  }

  lemma NotStored<K, V>(c: seq<Cell<K, V>>, hash: K -> nat, order: seq<nat>, k: K)
    requires Placed(c, hash, order)
    requires forall n :: 0 <= n < |c| && c[n].Live? ==> c[n].key != k
    ensures !Has(Entries(c, order), k)
  {
    var l := Entries(c, order);
    forall i | 0 <= i < |l| ensures l[i].key != k {
      assert c[order[i]].key != k;
    }
  }

  /** A list that names every number below m is at least that long. */
  lemma {:induction false} Covers(order: seq<nat>, m: nat)
    requires forall n: nat :: n < m ==> n in order
    ensures m <= |order|
  {
    if m > 0 {
      var last: nat := m - 1;
      assert last in order;
      var i :| 0 <= i < |order| && order[i] == last;
      var rest := RemoveAt(order, i);
      forall n: nat | n < m - 1 ensures n in rest {
        assert n in order;
        var j :| 0 <= j < |order| && order[j] == n;
        assert rest[if j < i then j else j - 1] == n;
      }
      Covers(rest, m - 1);
    }
  }

  // ----- Linking and unlinking -----

  /** Lines 595-603: a new entry at the tail. */
  lemma LinkLast(links: seq<Link>, head: int, tail: int, order: seq<nat>, n: nat, links': seq<Link>)
    requires Linked(links, head, tail, order) && n < |links| == |links'| && n !in order
    requires order == [] ==> links' == links[n := Link(-1, -1)]
    requires order != [] ==> 0 <= tail < |links| && links' == links[tail := links[tail].(next := n)][n := Link(-1, tail)]
    ensures Linked(links', if order == [] then n else head, n, order + [n])
  {
  }

  /** Lines 663-674: the entry at position i is taken out of the list. */
  lemma LinkOut(links: seq<Link>, head: int, tail: int, order: seq<nat>, i: nat, links': seq<Link>, head': int, tail': int)
    requires Linked(links, head, tail, order) && i < |order| && |links'| == |links|
    requires head' == if i == 0 then At(order, 1) else head
    requires tail' == if i == |order| - 1 then At(order, i - 1) else tail
    requires forall j :: 0 <= j < |order| && j != i ==>
      links'[order[j]] == Link(if j == i - 1 then At(order, i + 1) else links[order[j]].next,
                               if j == i + 1 then At(order, i - 1) else links[order[j]].prev)
    ensures Linked(links', head', tail', RemoveAt(order, i))
  {
    hide At;
    var rest := RemoveAt(order, i);
    AtCut(order, i, 0);
    AtCut(order, i, |rest| - 1);
    forall j | 0 <= j < |rest| ensures rest[j] < |links| && links'[rest[j]] == Link(At(rest, j + 1), At(rest, j - 1)) {
      var k := if j < i then j else j + 1;
      AtCut(order, i, j + 1);
      AtCut(order, i, j - 1);
      assert rest[j] == order[k];
      assert links[order[k]] == Link(At(order, k + 1), At(order, k - 1));
    }
  }

  lemma AtCut(order: seq<nat>, i: nat, j: int)
    requires i < |order| && -1 <= j < |order|
    ensures At(RemoveAt(order, i), j) == At(order, if j < i then j else j + 1)
  {
  }

  // ----- The table as the program keeps it -----

  /** count >= size * LH_LOAD_FACTOR, with the factor 0.66. */
  predicate Loaded(count: int, size: int) {
    100 * count >= 66 * size
  }

  class Table<K(==), V> {
    const hash: K -> nat
    var cells: array<Cell<K, V>>
    var links: array<Link>
    var head: int
    var tail: int
    var count: int
    ghost var order: seq<nat>

    ghost predicate Valid()
      reads this, cells, links
    {
      && 1 <= cells.Length == links.Length
      && count == |order| <= cells.Length
      && Placed(cells[..], hash, order)
      && Linked(links[..], head, tail, order)
    }

    ghost function Contents(): (l: seq<Pair<K, V>>)
      requires Valid()
      reads this, cells, links
      ensures DistinctKeys(l)
    {
      Entries(cells[..], order)
    }

    /** lh_table_new */
    constructor (hash: K -> nat, size: nat)
      requires size >= 1
      ensures Valid() && Contents() == [] && cells.Length == size && this.hash == hash && fresh(cells) && fresh(links)
    {
      this.hash := hash;
      cells := new Cell[size](_ => Empty);
      links := new Link[size](_ => Link(-1, -1));
      head, tail, count := -1, -1, 0;
      order := [];
    }

    /** lh_table_lookup_entry_w_hash */
    method Lookup(k: K) returns (e: Option<nat>)
      requires Valid()
      ensures e.Some? <==> Has(Contents(), k)
      ensures e.Some? ==> e.value < cells.Length && cells[e.value].Live? && cells[e.value].key == k
      ensures e.Some? ==> Find(Contents(), k) < |order| && order[Find(Contents(), k)] == e.value
    {
      hide Placed, Linked, Entries, Find, Step, Home, Has;
      var m, h := cells.Length, Home(hash, k, cells.Length);
      ghost var c := cells[..];
      var n, steps := h, 0;
      StepZero(h, m);
      while steps < m
        invariant 0 <= steps <= m && n < m
        invariant steps < m ==> n == Step(h, steps, m)
        invariant Passed(c, h, steps, k)
      {
        StepNext(h, steps, m);
        match cells[n] {
          case Empty =>
            Unreached(c, hash, order, k, steps);
            return None;
          case Live(key, _) =>
            if key == k {
              FindSlot(c, hash, order, k, n);
              return Some(n);
            }
          case Freed =>
        }
        n := n + 1;
        if n == m {
          n := 0;
        }
        steps := steps + 1;
      }
      Unreached(c, hash, order, k, m);
      return None;
    }

    /** The slot search and linking of lh_table_insert_w_hash (lines 583-605). */
    method Place(k: K, v: V)
      requires Valid() && count < cells.Length && !Has(Contents(), k)
      modifies this`head, this`tail, this`count, this`order, cells, links
      ensures Valid() && Contents() == old(Contents()) + [Pair(k, v)]
      ensures count == old(count) + 1
    {
      var n := FreeSlot(k);
      ghost var c, l := cells[..], links[..];
      PlaceKeeps(c, hash, order, n, k, v);
      cells[n] := Live(k, v);
      assert cells[..] == c[n := Live(k, v)];
      if head == -1 {
        links[n] := Link(-1, -1);
        assert links[..] == l[n := Link(-1, -1)];
        LinkLast(l, head, tail, order, n, links[..]);
        head, tail := n, n;
      } else {
        links[tail] := links[tail].(next := n);
        links[n] := Link(-1, tail);
        assert links[..] == l[tail := l[tail].(next := n)][n := Link(-1, tail)];
        LinkLast(l, head, tail, order, n, links[..]);
        tail := n;
      }
      count := count + 1;
      order := order + [n];
    }

    /** The insertion probe: it always ends, because some slot is not live. */
    method FreeSlot(k: K) returns (n: nat)
      requires Valid() && count < cells.Length
      ensures n < cells.Length && !cells[n].Live? && n !in order
      ensures Reached(cells[..], Home(hash, k, cells.Length), n)
    {
      hide Placed, Linked, Step, Home, Reached;
      var m, h := cells.Length, Home(hash, k, cells.Length);
      ghost var steps, c := 0, cells[..];
      n := h;
      StepZero(h, m);
      while cells[n].Live?
        invariant 0 <= steps < m && n == Step(h, steps, m)
        invariant Busy(c, h, steps)
        decreases m - steps
      {
        StepNext(h, steps, m);
        if steps == m - 1 {
          AllLive(c, hash, h, order);
        }
        n := n + 1;
        if n == m {
          n := 0;
        }
        steps := steps + 1;
      }
      BusyReaches(c, hash, h, steps, order);
    }

    /** lh_table_resize: the live entries move over in list order; no inner insertion resizes again. */
    method Resize()
      requires Valid()
      modifies this
      ensures Valid() && Contents() == old(Contents()) && count == old(count)
      ensures fresh(cells) && fresh(links) && cells.Length == 2 * old(cells.Length)
    {
      hide Placed, Linked;
      var t := new Table<K, V>(hash, 2 * cells.Length);
      var e := head;
      ghost var i, all := 0, Contents();
      ListHead(links[..], head, tail, order);
      while e != -1
        invariant 0 <= i <= |order| && e == At(order, i)
        invariant Valid() && Contents() == all && unchanged(this) && unchanged(cells) && unchanged(links)
        invariant t.Valid() && t.Contents() == all[..i] && t.count == i && t.hash == hash
        invariant fresh(t) && fresh(t.cells) && fresh(t.links) && t.cells.Length == 2 * cells.Length
        decreases |order| - i
      {
        assert !Loaded(t.count, t.cells.Length);
        var n: nat := ListNext(cells[..], links[..], hash, head, tail, order, i);
        NotYet(all, i);
        match cells[e] {
          case Live(k, v) => t.Place(k, v);
        }
        assert all[..i + 1] == all[..i] + [all[i]];
        e, i := links[e].next, i + 1;
      }
      assert all[..i] == all;
      cells, links, head, tail, order := t.cells, t.links, t.head, t.tail, t.order;
    }

    /** lh_table_insert_w_hash */
    method Insert(k: K, v: V)
      requires Valid() && !Has(Contents(), k)
      modifies this, cells, links
      ensures Valid() && Contents() == old(Contents()) + [Pair(k, v)]
      ensures (cells == old(cells) && links == old(links)) || (fresh(cells) && fresh(links))
    {
      hide Placed, Linked;
      if Loaded(count, cells.Length) {
        Resize();
      }
      Place(k, v);
    }

    /** json_object_object_add_ex: a known key keeps its slot and its place in the list. */
    method Add(k: K, v: V)
      requires Valid()
      modifies this, cells, links
      ensures Valid() && Contents() == Put(old(Contents()), k, v)
      ensures (cells == old(cells) && links == old(links)) || (fresh(cells) && fresh(links))
    {
      hide Placed, Linked, Find;
      var e := Lookup(k);
      FindHas(Contents(), k);
      if e.None? {
        Insert(k, v);
      } else {
        var n := e.value;
        ghost var c := cells[..];
        ReplaceKeeps(c, hash, order, n, Find(Contents(), k), v);
        cells[n] := Live(cells[n].key, v);
        assert cells[..] == c[n := Live(k, v)];
      }
    }

    /** lh_table_lookup_ex */
    method LookupValue(k: K) returns (v: Option<V>)
      requires Valid()
      ensures v == Get(Contents(), k)
    {
      hide Placed, Linked, Find;
      var e := Lookup(k);
      FindHas(Contents(), k);
      if e.None? {
        return None;
      }
      return Some(cells[e.value].value);
    }

    /** lh_table_delete: the slot becomes a tombstone and leaves the list. */
    method Delete(k: K) returns (found: bool)
      requires Valid()
      modifies this, cells, links
      ensures Valid() && Contents() == Without(old(Contents()), k) && found == Has(old(Contents()), k)
      ensures cells == old(cells) && links == old(links)
    {
      hide Placed, Linked, Find, Entries, Has;
      var e := Lookup(k);
      FindHas(Contents(), k);
      if e.None? {
        return false;
      }
      var n := e.value;
      ghost var c, l, i := cells[..], links[..], Find(Contents(), k);
      FreeKeeps(c, hash, order, i);
      count := count - 1;
      cells[n] := Freed;
      assert cells[..] == c[n := Freed];
      Unlink(n, c, i);
      order := RemoveAt(order, i);
      return true;
    }

    method Unlink(n: nat, ghost c: seq<Cell<K, V>>, ghost i: nat)
      requires Placed(c, hash, order) && |c| == links.Length && Linked(links[..], head, tail, order)
      requires i < |order| && order[i] == n
      modifies this`head, this`tail, links
      ensures Linked(links[..], head, tail, RemoveAt(order, i))
    {
      hide Placed, Linked, At, RemoveAt;
      ghost var l, h, t := links[..], head, tail;
      Neighbours(c, hash, l, head, tail, order, i);
      ghost var l2 := Closed(l, At(order, i - 1), At(order, i + 1));
      if tail == n && head == n {
        head, tail := -1, -1;
        assert links[..] == l2;
      } else if head == n {
        var next := links[head].next;
        links[next] := links[next].(prev := -1);
        head := next;
        assert links[..] == l2;
      } else if tail == n {
        var prev := links[tail].prev;
        links[prev] := links[prev].(next := -1);
        tail := prev;
        assert links[..] == l2;
      } else {
        var prev, next := links[n].prev, links[n].next;
        links[prev] := links[prev].(next := next);
        links[next] := links[next].(prev := prev);
        assert links[..] == l2;
      }
      links[n] := Link(-1, -1);
      assert links[..] == l2[n := Link(-1, -1)];
      SplicedOut(c, hash, l, h, t, order, i);
    }
  }

  /** The links after the slots p and x, either of which may be null, have closed up. */
  function Closed(links: seq<Link>, p: int, x: int): (r: seq<Link>)
    requires p < |links| && x < |links|
    ensures |r| == |links|
  {
    var l1 := if p >= 0 then links[p := links[p].(next := x)] else links;
    if x >= 0 then l1[x := l1[x].(prev := p)] else l1
  }

  lemma Neighbours<K, V>(c: seq<Cell<K, V>>, hash: K -> nat, links: seq<Link>, head: int, tail: int, order: seq<nat>, i: nat)
    requires Placed(c, hash, order) && |c| == |links| && Linked(links, head, tail, order) && i < |order|
    ensures order[i] < |links| && links[order[i]] == Link(At(order, i + 1), At(order, i - 1))
    ensures head == order[i] <==> At(order, i - 1) == -1
    ensures tail == order[i] <==> At(order, i + 1) == -1
    ensures -1 <= At(order, i - 1) < |links| && -1 <= At(order, i + 1) < |links|
    ensures At(order, i - 1) != order[i] && At(order, i + 1) != order[i]
    ensures At(order, i - 1) >= 0 ==> At(order, i - 1) != At(order, i + 1)
  {}

  lemma Apart<K, V>(c: seq<Cell<K, V>>, hash: K -> nat, order: seq<nat>, i: nat, j: nat)
    requires Placed(c, hash, order) && i < |order| && j < |order| && j != i
    ensures order[j] == At(order, i - 1) <==> j == i - 1
    ensures order[j] == At(order, i + 1) <==> j == i + 1
    ensures order[j] != order[i] && order[j] < |c|
  {}

  lemma SplicedOut<K, V>(c: seq<Cell<K, V>>, hash: K -> nat, links: seq<Link>, head: int, tail: int, order: seq<nat>, i: nat)
    requires Placed(c, hash, order) && |c| == |links| && Linked(links, head, tail, order) && i < |order|
    ensures var p, x := At(order, i - 1), At(order, i + 1);
      && p < |links| && x < |links| && order[i] < |links|
      && Linked(Closed(links, p, x)[order[i] := Link(-1, -1)], if p == -1 then x else head, if x == -1 then p else tail, RemoveAt(order, i))
  {
    hide Placed, Linked, At, RemoveAt;
    Neighbours(c, hash, links, head, tail, order, i);
    var p, x := At(order, i - 1), At(order, i + 1);
    var r := Closed(links, p, x)[order[i] := Link(-1, -1)];
    forall j | 0 <= j < |order| && j != i
      ensures order[j] < |links| && r[order[j]] ==
        Link(if j == i - 1 then x else links[order[j]].next, if j == i + 1 then p else links[order[j]].prev)
    {
      Apart(c, hash, order, i, j);
    }
    Ends(links, head, tail, order, i);
    LinkOut(links, head, tail, order, i, r, if p == -1 then x else head, if x == -1 then p else tail);
  }

  lemma Ends(links: seq<Link>, head: int, tail: int, order: seq<nat>, i: nat)
    requires Linked(links, head, tail, order) && i < |order|
    ensures At(order, i - 1) == -1 <==> i == 0
    ensures At(order, i + 1) == -1 <==> i == |order| - 1
  {}

  lemma ListHead(links: seq<Link>, head: int, tail: int, order: seq<nat>)
    requires Linked(links, head, tail, order)
    ensures head == At(order, 0)
  {}

  lemma ListNext<K, V>(c: seq<Cell<K, V>>, links: seq<Link>, hash: K -> nat, head: int, tail: int, order: seq<nat>, i: nat) returns (n: nat)
    requires Placed(c, hash, order) && Linked(links, head, tail, order) && i < |order| && |c| == |links|
    ensures n == order[i] < |c| && c[n].Live? && links[n].next == At(order, i + 1)
    ensures Entries(c, order)[i] == Pair(c[n].key, c[n].value)
  {
    n := order[i];
  }

  lemma NotYet<K, V>(l: seq<Pair<K, V>>, i: nat)
    requires DistinctKeys(l) && i < |l|
    ensures !Has(l[..i], l[i].key)
  {}

  lemma FindHas<K, V>(l: seq<Pair<K, V>>, k: K)
    ensures Has(l, k) <==> Find(l, k) < |l|
  {}

  lemma StepZero(h: nat, m: nat)
    requires h < m
    ensures Step(h, 0, m) == h
  {}

  lemma StepNext(h: nat, d: nat, m: nat)
    requires h < m && d < m
    ensures d + 1 < m ==> Step(h, d + 1, m) == if Step(h, d, m) + 1 == m then 0 else Step(h, d, m) + 1
  {}

  /** The first `steps` slots from h are live. */
  ghost predicate Busy<K, V>(c: seq<Cell<K, V>>, h: nat, steps: nat) {
    h < |c| && steps <= |c| && forall d :: 0 <= d < steps ==> c[Step(h, d, |c|)].Live?
  }

  /** None of the first `steps` slots from h is empty or holds k. */
  ghost predicate Passed<K, V>(c: seq<Cell<K, V>>, h: nat, steps: nat, k: K) {
    && h < |c| && steps <= |c|
    && forall d :: 0 <= d < steps ==> !c[Step(h, d, |c|)].Empty? && !Holds(c[Step(h, d, |c|)], k)
  }

  lemma BusyReaches<K, V>(c: seq<Cell<K, V>>, hash: K -> nat, h: nat, steps: nat, order: seq<nat>)
    requires Placed(c, hash, order) && Busy(c, h, steps) && steps < |c| && !c[Step(h, steps, |c|)].Live?
    ensures Reached(c, h, Step(h, steps, |c|)) && Step(h, steps, |c|) !in order
  {
    assert Dist(h, Step(h, steps, |c|), |c|) == steps;
  }

  ghost predicate Holds<K, V>(cell: Cell<K, V>, k: K) {
    cell.Live? && cell.key == k
  }

  /** The probe passed `steps` other slots and then met an empty one or had seen them all. */
  lemma Unreached<K, V>(c: seq<Cell<K, V>>, hash: K -> nat, order: seq<nat>, k: K, steps: nat)
    requires Placed(c, hash, order) && steps <= |c|
    requires steps < |c| ==> c[Step(Home(hash, k, |c|), steps, |c|)].Empty?
    requires Passed(c, Home(hash, k, |c|), steps, k)
    ensures !Has(Entries(c, order), k)
  {
    var h := Home(hash, k, |c|);
    forall n | 0 <= n < |c| && c[n].Live? ensures c[n].key != k {
      var d := Dist(h, n, |c|);
      assert Reached(c, Home(hash, c[n].key, |c|), n);
    }
    NotStored(c, hash, order, k);
  }

  lemma AllLive<K, V>(c: seq<Cell<K, V>>, hash: K -> nat, h: nat, order: seq<nat>)
    requires Placed(c, hash, order) && Busy(c, h, |c| - 1) && c[Step(h, |c| - 1, |c|)].Live?
    ensures |c| <= |order|
  {
    forall n: nat | n < |c| ensures n in order {
      var d := Dist(h, n, |c|);
      assert c[Step(h, d, |c|)].Live?;
    }
    Covers(order, |c|);
  }

  // ----- Any sequence of additions and deletions -----

  datatype Op<K, V> = Adding(key: K, value: V) | Deleting(key: K)

  function Applied<K(==), V>(l: seq<Pair<K, V>>, op: Op<K, V>): seq<Pair<K, V>> {
    match op
    case Adding(k, v) => Put(l, k, v)
    case Deleting(k) => Without(l, k)
  }

  function History<K(==), V>(ops: seq<Op<K, V>>): seq<Pair<K, V>> {
    if ops == [] then [] else Applied(History(ops[..|ops| - 1]), ops[|ops| - 1])
  }

  /** A table that starts at the default size of 16 and grows as it must. */
  method Replay<K(==), V>(hash: K -> nat, ops: seq<Op<K, V>>) returns (t: Table<K, V>)
    ensures t.Valid() && t.Contents() == History(ops)
  {
    hide Placed, Linked, Find, Entries;
    t := new Table<K, V>(hash, 16);
    var i := 0;
    while i < |ops|
      invariant 0 <= i <= |ops| && fresh(t) && fresh(t.cells) && fresh(t.links)
      invariant t.Valid() && t.Contents() == History(ops[..i])
    {
      assert ops[..i + 1][..i] == ops[..i];
      match ops[i] {
        case Adding(k, v) => t.Add(k, v);
        case Deleting(k) => var _ := t.Delete(k);
      }
      i := i + 1;
    }
    assert ops[..i] == ops;
  }

  /** The value last written to k, unless it was deleted since. */
  function LastWritten<K(==), V>(ops: seq<Op<K, V>>, k: K): Option<V> {
    if ops == [] then None
    else
      var op := ops[|ops| - 1];
      if op.key != k then LastWritten(ops[..|ops| - 1], k)
      else if op.Adding? then Some(op.value) else None
  }

  /** When the present k came in. */
  function Born<K(==), V>(ops: seq<Op<K, V>>, k: K): (n: nat)
    requires LastWritten(ops, k).Some?
    ensures n < |ops|
  {
    var before := ops[..|ops| - 1];
    if LastWritten(before, k).None? then |ops| - 1 else Born(before, k)
  }

  /**
   * The history holds each live key once, with its last value, in the order in which the keys came
   * in. No other list does.
   */
  ghost predicate Records<K(!new), V>(l: seq<Pair<K, V>>, ops: seq<Op<K, V>>) {
    && (forall i :: 0 <= i < |l| ==> LastWritten(ops, l[i].key) == Some(l[i].value))
    && (forall k :: LastWritten(ops, k).Some? ==> Has(l, k))
    && (forall i, j :: 0 <= i < j < |l| ==> Born(ops, l[i].key) < Born(ops, l[j].key))
  }

  lemma {:induction false} HistoryRecords<K(!new), V>(ops: seq<Op<K, V>>)
    ensures Records(History(ops), ops)
  {
    if ops != [] {
      var before, op := ops[..|ops| - 1], ops[|ops| - 1];
      HistoryRecords(before);
      match op
      case Adding(k, v) => PutRecords(History(before), ops, k, v);
      case Deleting(k) => WithoutRecords(History(before), ops, k);
    }
  }

  /** What the last operation means for a key. */
  lemma Unfold<K, V>(ops: seq<Op<K, V>>, x: K)
    requires ops != []
    ensures var before, op := ops[..|ops| - 1], ops[|ops| - 1];
      && LastWritten(ops, x) ==
         (if op.key != x then LastWritten(before, x) else if op.Adding? then Some(op.value) else None)
      && (LastWritten(ops, x).Some? ==>
           Born(ops, x) == if LastWritten(before, x).None? then |ops| - 1 else Born(before, x))
  {}

  lemma RecordsDistinct<K(!new), V>(l: seq<Pair<K, V>>, ops: seq<Op<K, V>>)
    requires Records(l, ops)
    ensures DistinctKeys(l)
  {
    forall i, j | 0 <= i < j < |l| ensures l[i].key != l[j].key {
      assert Born(ops, l[i].key) < Born(ops, l[j].key);
    }
  }

  lemma PutRecords<K(!new), V>(l: seq<Pair<K, V>>, ops: seq<Op<K, V>>, k: K, v: V)
    requires ops != [] && ops[|ops| - 1] == Adding(k, v) && Records(l, ops[..|ops| - 1])
    ensures Records(Put(l, k, v), ops)
  {
    hide Find, LastWritten, Born;
    var before, r, f := ops[..|ops| - 1], Put(l, k, v), Find(l, k);
    FindHas(l, k);
    RecordsDistinct(l, before);
    forall x | LastWritten(ops, x).Some? ensures Has(r, x) {
      Unfold(ops, x);
      if x == k {
        assert r[f].key == k;
      } else {
        assert Has(l, x);
        var i :| 0 <= i < |l| && l[i].key == x;
        assert r[i].key == x;
      }
    }
    forall i | 0 <= i < |r| ensures LastWritten(ops, r[i].key) == Some(r[i].value) {
      Unfold(ops, r[i].key);
      if i < |l| { assert r[i].key == l[i].key; }
    }
    forall i, j | 0 <= i < j < |r| ensures Born(ops, r[i].key) < Born(ops, r[j].key) {
      Unfold(ops, r[i].key);
      Unfold(ops, r[j].key);
      assert r[i].key == l[i].key;
      if j < |l| {
        assert r[j].key == l[j].key;
        assert Born(before, l[i].key) < Born(before, l[j].key);
      } else {
        assert r[j].key == k && LastWritten(before, k).None?;
      }
    }
  }

  lemma WithoutRecords<K(!new), V>(l: seq<Pair<K, V>>, ops: seq<Op<K, V>>, k: K)
    requires ops != [] && ops[|ops| - 1] == Deleting(k) && Records(l, ops[..|ops| - 1])
    ensures Records(Without(l, k), ops)
  {
    if Find(l, k) < |l| {
      CutRecords(l, ops, Find(l, k));
    } else {
      FindHas(l, k);
      AbsentRecords(l, ops);
    }
    hide *;
  }

  lemma AbsentRecords<K(!new), V>(l: seq<Pair<K, V>>, ops: seq<Op<K, V>>)
    requires ops != [] && ops[|ops| - 1].Deleting? && !Has(l, ops[|ops| - 1].key) && Records(l, ops[..|ops| - 1])
    ensures Records(l, ops)
  {
    hide LastWritten, Born;
    forall i | 0 <= i < |l| ensures LastWritten(ops, l[i].key) == Some(l[i].value) {
      Unfold(ops, l[i].key);
    }
    forall i, j | 0 <= i < j < |l| ensures Born(ops, l[i].key) < Born(ops, l[j].key) {
      Unfold(ops, l[i].key);
      Unfold(ops, l[j].key);
    }
    forall x | LastWritten(ops, x).Some? ensures Has(l, x) {
      Unfold(ops, x);
    }
  }

  lemma CutRecords<K(!new), V>(l: seq<Pair<K, V>>, ops: seq<Op<K, V>>, f: nat)
    requires ops != [] && ops[|ops| - 1].Deleting? && f < |l| && l[f].key == ops[|ops| - 1].key
    requires Records(l, ops[..|ops| - 1])
    ensures Records(RemoveAt(l, f), ops)
  {
    var before, r := ops[..|ops| - 1], RemoveAt(l, f);
    RecordsDistinct(l, before);
    hide LastWritten, Born, RemoveAt;
    forall i | 0 <= i < |r| ensures LastWritten(ops, r[i].key) == Some(r[i].value) {
      Unfold(ops, r[i].key);
    }
    forall i, j | 0 <= i < j < |r| ensures Born(ops, r[i].key) < Born(ops, r[j].key) {
      Unfold(ops, r[i].key);
      Unfold(ops, r[j].key);
      var i', j' := if i < f then i else i + 1, if j < f then j else j + 1;
      assert r[i] == l[i'] && r[j] == l[j'];
    }
    forall x | LastWritten(ops, x).Some? ensures Has(r, x) {
      Unfold(ops, x);
      StillHas(l, f, x);
    }
  }

  lemma StillHas<K, V>(l: seq<Pair<K, V>>, f: nat, x: K)
    requires f < |l| && Has(l, x) && l[f].key != x
    ensures Has(RemoveAt(l, f), x)
  {
    var i :| 0 <= i < |l| && l[i].key == x;
    assert RemoveAt(l, f)[if i < f then i else i - 1].key == x;
  }

  /** A list with these properties is the history. */
  lemma RecordsUnique<K(!new), V>(a: seq<Pair<K, V>>, b: seq<Pair<K, V>>, ops: seq<Op<K, V>>)
    requires Records(a, ops) && Records(b, ops)
    ensures a == b
  {
    RecordsPrefix(a, b, ops, |a|);
    RecordsPrefix(b, a, ops, |b|);
  }

  lemma {:induction false} RecordsPrefix<K(!new), V>(a: seq<Pair<K, V>>, b: seq<Pair<K, V>>, ops: seq<Op<K, V>>, n: nat)
    requires Records(a, ops) && Records(b, ops) && n <= |a|
    ensures n <= |b| && a[..n] == b[..n]
  {
    if n > 0 {
      RecordsPrefix(a, b, ops, n - 1);
      NextBorn(a, b, ops, n - 1);
      NextBorn(b, a, ops, n - 1);
    }
  }

  /** After a common beginning, the next key of b came in no later than the next key of a, or is that key. */
  lemma NextBorn<K(!new), V>(a: seq<Pair<K, V>>, b: seq<Pair<K, V>>, ops: seq<Op<K, V>>, m: nat)
    requires Records(a, ops) && Records(b, ops) && m < |a| && m <= |b| && a[..m] == b[..m]
    ensures m < |b|
    ensures a[m] == b[m] || Born(ops, b[m].key) < Born(ops, a[m].key)
  {
    var k := a[m].key;
    forall i | 0 <= i < m ensures b[i].key != k {
      assert a[..m][i] == b[..m][i];
      assert Born(ops, a[i].key) < Born(ops, a[m].key);
    }
    assert Has(b, k);
    var j :| 0 <= j < |b| && b[j].key == k;
    assert j > m ==> Born(ops, b[m].key) < Born(ops, b[j].key);
  }
}
