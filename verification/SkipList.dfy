/** The skip list of ibdb/src/base/skiplist.h as a heap of nodes. */
module SkipLists {
  import opened SkipLinks
  import Rng

  /** The head holds no key and no value. */
  datatype Entry<K, V> = Sentinel | Entry(key: K, value: V)

  class Node<K, V> {
    const entry: Entry<K, V>
    const height: nat
    /** The link at each level below the height; a new node's links are not initialized. */
    var next: seq<Link<Node<K, V>>>

    constructor (entry: Entry<K, V>, height: nat)
      ensures this.entry == entry && this.height == height
      ensures next == seq(height, _ => Unset)
    {
      this.entry := entry;
      this.height := height;
      next := seq(height, _ => Unset);
    }
  }

  function Height<K, V>(n: Node<K, V>): nat { n.height }

  ghost predicate TotalOrder<K(!new)>(cmp: (K, K) -> int) {
    && (forall a, b :: cmp(a, b) == 0 <==> a == b)
    && (forall a, b :: cmp(a, b) < 0 <==> cmp(b, a) > 0)
    && (forall a, b, c :: cmp(a, b) < 0 && cmp(b, c) < 0 ==> cmp(a, c) < 0)
  }

  /** The nodes hold entries with ascending keys. */
  ghost predicate Ordered<K(!new), V>(cmp: (K, K) -> int, s: seq<Node<K, V>>) {
    && (forall j :: 0 <= j < |s| ==> s[j].entry.Entry?)
    && (forall a, b :: 0 <= a < b < |s| ==> cmp(s[a].entry.key, s[b].entry.key) < 0)
  }

  /** The entries of a list of nodes, as a finite map. */
  ghost function Table<K, V>(s: seq<Node<K, V>>): map<K, V>
    decreases |s|
  {
    if s == [] then map[]
    else
      var last := s[|s| - 1].entry;
      if last.Entry? then Table(s[..|s| - 1])[last.key := last.value] else Table(s[..|s| - 1])
  }

  lemma Compare<K(!new)>(cmp: (K, K) -> int, a: K, b: K)
    requires TotalOrder(cmp)
    ensures cmp(a, b) == 0 <==> a == b
    ensures cmp(a, b) < 0 <==> cmp(b, a) > 0
    ensures cmp(a, b) > 0 <==> cmp(b, a) < 0
  {
  }

  lemma Chain<K(!new)>(cmp: (K, K) -> int, a: K, b: K, c: K)
    requires TotalOrder(cmp) && cmp(a, b) < 0 && cmp(b, c) < 0
    ensures cmp(a, c) < 0
  {
  }

  /** KeyIsAfterNode, for a node that holds an entry. */
  predicate IsBelow<K, V>(cmp: (K, K) -> int, key: K, n: Node<K, V>) {
    n.entry.Entry? && cmp(n.entry.key, key) < 0
  }

  ghost function Below<K, V>(cmp: (K, K) -> int, key: K): Node<K, V> -> bool {
    (n: Node<K, V>) => IsBelow(cmp, key, n)
  }

  /** The links of the head and of the nodes of `s`. */
  ghost function Snap<K, V>(head: Node<K, V>, s: seq<Node<K, V>>): Mem<Node<K, V>>
    reads head, s
  {
    map n | n in {head} + (set k | k in s) :: n.next
  }

  lemma {:induction false} FindSplit<K(!new), V>(cmp: (K, K) -> int, key: K, s: seq<Node<K, V>>) returns (pos: nat)
    requires TotalOrder(cmp) && Ordered(cmp, s)
    ensures Split(s, Below(cmp, key), pos)
    decreases |s|
  {
    hide TotalOrder;
    if s == [] {
      pos := 0;
    } else {
      var last := |s| - 1;
      pos := FindSplit(cmp, key, s[..last]);
      assert forall j :: 0 <= j < last ==> s[..last][j] == s[j] && (Below(cmp, key)(s[j]) <==> j < pos);
      if IsBelow(cmp, key, s[last]) {
        forall j | 0 <= j < |s| ensures IsBelow(cmp, key, s[j]) {
          if j < last { Chain(cmp, s[j].entry.key, s[last].entry.key, key); }
        }
        pos := |s|;
      }
    }
  }

  lemma {:induction false} TableHas<K, V>(s: seq<Node<K, V>>, j: nat)
    requires j < |s| && s[j].entry.Entry?
    ensures s[j].entry.key in Table(s)
    decreases |s|
  {
    if j < |s| - 1 {
      assert s[..|s| - 1][j] == s[j];
      TableHas(s[..|s| - 1], j);
    }
  }

  lemma {:induction false} TableFrom<K, V>(s: seq<Node<K, V>>, key: K) returns (j: nat)
    requires key in Table(s)
    ensures j < |s| && s[j].entry.Entry? && s[j].entry.key == key && s[j].entry.value == Table(s)[key]
    decreases |s|
  {
    var last := s[|s| - 1].entry;
    if last.Entry? && last.key == key {
      j := |s| - 1;
    } else {
      j := TableFrom(s[..|s| - 1], key);
      assert s[..|s| - 1][j] == s[j];
    }
  }

  /** The key is in the list just when the first node that is not below it holds it. */
  lemma KeyAtSplit<K(!new), V>(cmp: (K, K) -> int, key: K, s: seq<Node<K, V>>, pos: nat)
    requires TotalOrder(cmp) && Ordered(cmp, s) && Split(s, Below(cmp, key), pos)
    ensures key in Table(s) <==> pos < |s| && cmp(s[pos].entry.key, key) == 0
    ensures key in Table(s) ==> Table(s)[key] == s[pos].entry.value
  {
    hide TotalOrder;
    if pos < |s| {
      Compare(cmp, s[pos].entry.key, key);
      assert !Below(cmp, key)(s[pos]);
      if s[pos].entry.key == key { TableHas(s, pos); }
    }
    if key in Table(s) {
      var j := TableFrom(s, key);
      Compare(cmp, key, key);
      assert !Below(cmp, key)(s[j]);
      assert pos <= j;
    }
  }

  /** `s` is below `key` before `pos` and above it from there on. */
  ghost predicate Around<K(!new), V>(cmp: (K, K) -> int, s: seq<Node<K, V>>, pos: nat, key: K) {
    && (forall j :: 0 <= j < |s| ==> s[j].entry.Entry?)
    && (forall j :: 0 <= j < pos && j < |s| ==> cmp(s[j].entry.key, key) < 0)
    && (forall j :: pos <= j < |s| ==> cmp(key, s[j].entry.key) < 0)
  }

  lemma SplitIsAround<K(!new), V>(cmp: (K, K) -> int, s: seq<Node<K, V>>, pos: nat, key: K)
    requires TotalOrder(cmp) && Ordered(cmp, s) && Split(s, Below(cmp, key), pos) && key !in Table(s)
    ensures Around(cmp, s, pos, key)
  {
    hide TotalOrder;
    forall j | 0 <= j < |s|
      ensures s[j].entry.Entry?
      ensures if j < pos then cmp(s[j].entry.key, key) < 0 else cmp(key, s[j].entry.key) < 0
    {
      assert Below(cmp, key)(s[j]) <==> j < pos;
      TableHas(s, j);
      Compare(cmp, s[j].entry.key, key);
    }
  }

  lemma OrderedInserted<K(!new), V>(cmp: (K, K) -> int, s: seq<Node<K, V>>, pos: nat, x: Node<K, V>)
    requires TotalOrder(cmp) && Ordered(cmp, s) && x.entry.Entry?
    requires Split(s, Below(cmp, x.entry.key), pos) && x.entry.key !in Table(s)
    ensures Ordered(cmp, Inserted(s, pos, x))
  {
    var s' := Inserted(s, pos, x);
    SplitIsAround(cmp, s, pos, x.entry.key);
    hide Table, Split, TotalOrder, Ordered, Around;
    forall a: nat, b: nat | a < b < |s'|
      ensures s'[a].entry.Entry? && s'[b].entry.Entry? && cmp(s'[a].entry.key, s'[b].entry.key) < 0
    {
      InsertedPair(cmp, s, pos, x, a, b);
    }
    InsertedEntries(cmp, s, pos, x);
  }

  lemma InsertedEntries<K(!new), V>(cmp: (K, K) -> int, s: seq<Node<K, V>>, pos: nat, x: Node<K, V>)
    requires Ordered(cmp, s) && pos <= |s| && x.entry.Entry?
    requires var s' := Inserted(s, pos, x); forall a: nat, b: nat :: a < b < |s'| ==>
               s'[a].entry.Entry? && s'[b].entry.Entry? && cmp(s'[a].entry.key, s'[b].entry.key) < 0
    ensures Ordered(cmp, Inserted(s, pos, x))
  {
  }

  lemma InsertedPair<K(!new), V>(cmp: (K, K) -> int, s: seq<Node<K, V>>, pos: nat, x: Node<K, V>, a: nat, b: nat)
    requires Ordered(cmp, s) && pos <= |s| && x.entry.Entry? && Around(cmp, s, pos, x.entry.key) && a < b <= |s|
    ensures var s' := Inserted(s, pos, x);
            s'[a].entry.Entry? && s'[b].entry.Entry? && cmp(s'[a].entry.key, s'[b].entry.key) < 0
  {
  }

  lemma {:induction false} TableInserted<K, V>(s: seq<Node<K, V>>, pos: nat, x: Node<K, V>)
    requires pos <= |s| && x.entry.Entry? && x.entry.key !in Table(s)
    ensures Table(Inserted(s, pos, x)) == Table(s)[x.entry.key := x.entry.value]
    decreases |s|
  {
    var s' := Inserted(s, pos, x);
    var n := |s|;
    if pos == n {
      assert s'[..n] == s;
    } else {
      assert s'[..n] == Inserted(s[..n - 1], pos, x);
      assert s'[n] == s[n - 1];
      TableInserted(s[..n - 1], pos, x);
    }
  }

  lemma OrderedRemoved<K(!new), V>(cmp: (K, K) -> int, s: seq<Node<K, V>>, pos: nat)
    requires Ordered(cmp, s) && pos < |s|
    ensures Ordered(cmp, Removed(s, pos))
  {
    RemovedAt(s, pos);
    hide Removed;
  }

  lemma KeyGone<K(!new), V>(cmp: (K, K) -> int, s: seq<Node<K, V>>, pos: nat)
    requires TotalOrder(cmp) && Ordered(cmp, s) && pos < |s|
    ensures s[pos].entry.key !in Table(Removed(s, pos))
  {
    hide TotalOrder;
    var key := s[pos].entry.key;
    if key in Table(Removed(s, pos)) {
      var t := TableFrom(Removed(s, pos), key);
      RemovedAt(s, pos);
      Compare(cmp, key, key);
      assert false;
    }
  }

  lemma PutBack<K, V>(m: map<K, V>, key: K, value: V)
    requires key !in m
    ensures m[key := value] - {key} == m
  {
  }

  lemma TableRemoved<K(!new), V>(cmp: (K, K) -> int, s: seq<Node<K, V>>, pos: nat)
    requires TotalOrder(cmp) && Ordered(cmp, s) && pos < |s|
    ensures Table(Removed(s, pos)) == Table(s) - {s[pos].entry.key}
  {
    KeyGone(cmp, s, pos);
    RemovedAt(s, pos);
    var b, x := Removed(s, pos), s[pos];
    assert x.entry.Entry?;
    hide Removed, Table, TotalOrder, Ordered, Inserted;
    TableInserted(b, pos, x);
    PutBack(Table(b), x.entry.key, x.entry.value);
  }

  /** The list is ordered by key and linked at every level. */
  ghost predicate Good<K(!new), V>(cmp: (K, K) -> int, m: Mem<Node<K, V>>, head: Node<K, V>, s: seq<Node<K, V>>,
                                   max: nat) {
    && TotalOrder(cmp) && Ordered(cmp, s)
    && AllLevels(m, Height, head, s)
    && 1 <= max <= MAX_HEIGHT
    && (forall j :: 0 <= j < |s| ==> s[j].height <= max)
  }

  lemma EmptyList<K(!new), V>(cmp: (K, K) -> int, m: Mem<Node<K, V>>, head: Node<K, V>)
    requires TotalOrder(cmp) && head.height == MAX_HEIGHT
    requires head in m && |m[head]| == MAX_HEIGHT && forall l :: 0 <= l < MAX_HEIGHT ==> m[head][l] == Null
    ensures Good(cmp, m, head, [], 1)
  {
    hide TotalOrder;
  }

  /** One more level for every draw in a row that is a multiple of 4, up to the maximum. */
  function HeightFrom(seed: nat, height: nat): nat
    decreases MAX_HEIGHT - height
  {
    if height < MAX_HEIGHT && Rng.Step(seed) % 4 == 0 then HeightFrom(Rng.Step(seed), height + 1) else height
  }

  /** The height is the number of the first draw that is no multiple of 4, and 12 if the first eleven
      draws all are. */
  lemma {:induction false} HeightIs(seed: nat, height: nat, h: nat)
    requires 1 <= height <= MAX_HEIGHT && h == HeightFrom(Rng.Iterate(seed, height - 1), height)
    ensures height <= h <= 12
    ensures forall i :: height <= i < h ==> Rng.Iterate(seed, i) % 4 == 0
    ensures h < 12 ==> Rng.Iterate(seed, h) % 4 != 0
    decreases MAX_HEIGHT - height
  {
    hide Rng.Step;
    var s := Rng.Iterate(seed, height - 1);
    if height < MAX_HEIGHT && Rng.Step(s) % 4 == 0 { HeightIs(seed, height + 1, h); }
  }

  class SkipList<K(!new, ==), V> {
    const cmp: (K, K) -> int
    const head: Node<K, V>
    const rnd: Rng.Random
    var maxHeight: nat
    /** The list at level 0. */
    ghost var nodes: seq<Node<K, V>>

    ghost predicate Valid()
      reads this, head, nodes, rnd
    {
      Good(cmp, Snap(head, nodes), head, nodes, maxHeight) && rnd.Valid()
    }

    /** Everything the list consists of. */
    ghost function Objects(): set<object>
      reads this
    {
      {this, head, rnd} + (set n | n in nodes)
    }

    /** The finite map that the list stands for. */
    ghost function Contents(): map<K, V>
      reads this
    {
      Table(nodes)
    }

    constructor (cmp: (K, K) -> int)
      requires TotalOrder(cmp)
      ensures Valid() && Contents() == map[] && this.cmp == cmp
      ensures fresh(Objects())
    {
      this.cmp := cmp;
      head := new Node(Sentinel, MAX_HEIGHT);
      rnd := new Rng.Random(0xdead_beef);
      maxHeight := 1;
      nodes := [];
      new;
      hide Good, TotalOrder;
      for i := 0 to MAX_HEIGHT
        invariant maxHeight == 1 && nodes == [] && rnd.Valid() && fresh(head) && fresh(rnd)
        invariant |head.next| == MAX_HEIGHT && head.height == MAX_HEIGHT
        invariant forall l :: 0 <= l < i ==> head.next[l] == Null
      {
        head.next := head.next[i := Null];
      }
      EmptyList(cmp, Snap(head, nodes), head);
    }

    /** KeyIsAfterNode */
    predicate KeyIsAfterNode(key: K, n: Link<Node<K, V>>) {
      n.To? && IsBelow(cmp, key, n.node)
    }

    method RandomHeight() returns (height: nat)
      requires rnd.Valid()
      modifies rnd
      ensures rnd.Valid() && 1 <= height <= MAX_HEIGHT
      ensures height == HeightFrom(old(rnd.seed), 1)
    {
      hide Rng.Step;
      height := 1;
      while height < MAX_HEIGHT
        invariant rnd.Valid() && 1 <= height <= MAX_HEIGHT
        invariant HeightFrom(rnd.seed, height) == HeightFrom(old(rnd.seed), 1)
        decreases MAX_HEIGHT - height
      {
        var r := rnd.Next();
        if r % 4 != 0 {
          return;
        }
        height := height + 1;
      }
    }

    /** The first node whose key is not below `key`, and at every level in use the node behind
        which `key` belongs. */
    method FindGreaterOrEqual(key: K, prev0: seq<Node<K, V>>)
      returns (r: Link<Node<K, V>>, prev: seq<Node<K, V>>, ghost pos: nat)
      requires Valid() && |prev0| == MAX_HEIGHT
      ensures pos <= |nodes| && Split(nodes, Below(cmp, key), pos)
      ensures r == if pos < |nodes| then To(nodes[pos]) else Null
      ensures |prev| == MAX_HEIGHT && prev[maxHeight..] == prev0[maxHeight..]
      ensures forall i: nat :: i < maxHeight ==> IsPred(Height, head, nodes, pos, prev[i], i)
    {
      hide TotalOrder, Ordered;
      pos := FindSplit(cmp, key, nodes);
      hide Shaped, LevelOk, Split, Clear;
      ghost var m, ix := Snap(head, nodes), -1;
      prev := prev0;
      var x := head;
      var level := maxHeight - 1;
      while true
        invariant 0 <= level < maxHeight && -1 <= ix < pos <= |nodes|
        invariant x == At(head, nodes, ix) && x.height > level
        invariant |prev| == MAX_HEIGHT && prev[maxHeight..] == prev0[maxHeight..]
        invariant forall i: nat :: level < i < maxHeight ==> IsPred(Height, head, nodes, pos, prev[i], i)
        decreases level, pos - ix
      {
        ghost var t := SearchStep(m, Height, head, nodes, Below(cmp, key), pos, ix, level);
        var next := x.next[level];
        if KeyIsAfterNode(key, next) {
          x := next.node;
          ix := t;
        } else {
          prev := prev[level := x];
          if level == 0 {
            r := next;
            return;
          } else {
            level := level - 1;
          }
        }
      }
    }

    /** The node that holds `key`, or null. */
    method FindEqual(key: K) returns (r: Link<Node<K, V>>)
      requires Valid()
      ensures if key in Contents() then r.To? && r.node in nodes && r.node.entry == Entry(key, Contents()[key])
              else r == Null
    {
      hide TotalOrder, Ordered;
      ghost var pos := FindSplit(cmp, key, nodes);
      KeyAtSplit(cmp, key, nodes, pos);
      hide Shaped, LevelOk, Split, Clear;
      ghost var m, ix := Snap(head, nodes), -1;
      var x := head;
      var level := maxHeight - 1;
      while true
        invariant 0 <= level < maxHeight && -1 <= ix < pos <= |nodes|
        invariant x == At(head, nodes, ix) && x.height > level
        decreases level, pos - ix
      {
        ghost var t := SearchStep(m, Height, head, nodes, Below(cmp, key), pos, ix, level);
        var next := x.next[level];
        if KeyIsAfterNode(key, next) {
          x := next.node;
          ix := t;
        } else if level == 0 {
          if next.To? { EntryAt(nodes, cmp, pos); Compare(cmp, nodes[pos].entry.key, key); }
          if next.To? && cmp(next.node.entry.key, key) == 0 {
            r := next;
            return;
          }
          r := Null;
          return;
        } else {
          level := level - 1;
        }
      }
    }

    method Contains(key: K) returns (found: bool)
      requires Valid()
      ensures found <==> key in Contents()
    {
      var r, prev;
      ghost var pos;
      r, prev, pos := FindGreaterOrEqual(key, seq(MAX_HEIGHT, _ => head));
      KeyAtSplit(cmp, key, nodes, pos);
      if r.To? { Compare(cmp, nodes[pos].entry.key, key); }
      found := r.To? && cmp(key, r.node.entry.key) == 0;
    }

    /** Links a node of random height for a key that is not in the list. */
    method Insert(key: K, value: V)
      requires Valid() && key !in Contents()
      modifies this`maxHeight, this`nodes, head, nodes, rnd
      ensures Valid() && Contents() == old(Contents())[key := value]
      ensures fresh(Objects() - old(Objects()))
    {
      hide Good, Split, Table, IsPred, Snap;
      var r;
      var prev: seq<Node<K, V>>;
      ghost var pos;
      r, prev, pos := FindGreaterOrEqual(key, seq(MAX_HEIGHT, _ => head));
      var height := RandomHeight();
      if height > maxHeight {
        prev := RaiseHeight(height, prev, pos);
      }
      var x := new Node(Entry(key, value), height);
      LinkNode(x, prev, pos);
    }

    method LinkNode(x: Node<K, V>, prev: seq<Node<K, V>>, ghost pos: nat)
      requires Valid() && pos <= |nodes| && x.height <= |prev| && 1 <= x.height <= maxHeight
      requires x.entry.Entry? && x.entry.key !in Contents() && Split(nodes, Below(cmp, x.entry.key), pos)
      requires x != head && x !in nodes && x.next == seq(x.height, _ => Unset)
      requires forall i: nat :: i < x.height ==> IsPred(Height, head, nodes, pos, prev[i], i)
      modifies this`nodes, head, nodes, x
      ensures Valid() && Contents() == old(Contents())[x.entry.key := x.entry.value]
      ensures nodes == Inserted(old(nodes), pos, x)
    {
      hide Good, Split, Table, IsPred, Snap, Linking, Inserted;
      ghost var s, s', m := nodes, Inserted(nodes, pos, x), Snap(head, nodes);
      SnapKeys(head, s, x);
      StartInsert(cmp, m, head, s, maxHeight, pos, x);
      SnapInserted(head, s, pos, x);
      LinkAll(s, pos, x, prev);
      FinishInsert(cmp, m, Snap(head, s'), head, s, maxHeight, pos, x);
      nodes := s';
    }

    /** Links `x` at all its levels, from the lowest up. */
    method LinkAll(ghost s: seq<Node<K, V>>, ghost pos: nat, x: Node<K, V>, prev: seq<Node<K, V>>)
      requires pos <= |s| && x.height <= |prev|
      requires Linking(Snap(head, Inserted(s, pos, x)), Height, head, s, pos, x, 0)
      requires forall i: nat :: i < x.height ==> IsPred(Height, head, s, pos, prev[i], i)
      modifies head, s, x
      ensures Linking(Snap(head, Inserted(s, pos, x)), Height, head, s, pos, x, x.height)
    {
      hide Linking, Inserted, IsPred, Snap;
      for i := 0 to x.height
        invariant Linking(Snap(head, Inserted(s, pos, x)), Height, head, s, pos, x, i)
      {
        PredIsNode(head, s, pos, prev[i], i);
        LinkLevel(s, pos, x, prev[i], i);
      }
    }

    /** Above the tallest node the head precedes everything. */
    method RaiseHeight(height: nat, prev0: seq<Node<K, V>>, ghost pos: nat) returns (prev: seq<Node<K, V>>)
      requires Valid() && maxHeight < height <= MAX_HEIGHT && pos <= |nodes|
      requires |prev0| == MAX_HEIGHT && forall i: nat :: i < maxHeight ==> IsPred(Height, head, nodes, pos, prev0[i], i)
      modifies this`maxHeight
      ensures Valid() && maxHeight == height
      ensures |prev| == MAX_HEIGHT && forall i: nat :: i < height ==> IsPred(Height, head, nodes, pos, prev[i], i)
    {
      prev := prev0;
      HeadPrecedes(cmp, Snap(head, nodes), head, nodes, maxHeight, pos);
      hide Good, IsPred, Snap;
      for i := maxHeight to height
        invariant |prev| == MAX_HEIGHT
        invariant forall l: nat :: l < i ==> IsPred(Height, head, nodes, pos, prev[l], l)
      {
        prev := prev[i := head];
      }
      Raised(cmp, Snap(head, nodes), head, nodes, maxHeight, height);
      maxHeight := height;
    }

    /** Links `x` behind `p` at level `i`. */
    method LinkLevel(ghost s: seq<Node<K, V>>, ghost pos: nat, x: Node<K, V>, p: Node<K, V>, i: nat)
      requires pos <= |s| && i < x.height
      requires Linking(Snap(head, Inserted(s, pos, x)), Height, head, s, pos, x, i)
      requires IsPred(Height, head, s, pos, p, i)
      modifies x, p
      ensures Linking(Snap(head, Inserted(s, pos, x)), Height, head, s, pos, x, i + 1)
    {
      ghost var s' := Inserted(s, pos, x);
      ghost var m := Snap(head, s');
      LinkSlots(m, Height, head, s, pos, x, p, i);
      hide Linking, IsPred, Inserted;
      x.next := x.next[i := p.next[i]];
      ghost var m1 := Snap(head, s');
      assert m1 == m[x := x.next];
      p.next := p.next[i := To(x)];
      ghost var m2 := Snap(head, s');
      assert m2 == m1[p := p.next];
      LinkOneLevel(m, m1, m2, Height, head, s, pos, x, p, i);
    }

    /** Unlinks the node that holds `key`, from the lowest level up. */
    method Remove(key: K) returns (removed: bool)
      requires Valid()
      modifies this`nodes, head, nodes
      ensures Valid() && Contents() == old(Contents()) - {key}
      ensures removed <==> key in old(Contents())
      ensures Objects() <= old(Objects())
    {
      removed := Contains(key);
      if removed {
        Unlink(key);
      }
    }

    method Unlink(key: K)
      requires Valid() && key in Contents()
      modifies this`nodes, head, nodes
      ensures Valid() && Contents() == old(Contents()) - {key}
      ensures Objects() <= old(Objects())
    {
      hide Split, Table, IsPred, Snap, Removed, Unlinking, Good;
      var target, prev;
      ghost var pos;
      target, prev, pos := FindGreaterOrEqual(key, seq(MAX_HEIGHT, _ => head));
      ghost var s, m := nodes, Snap(head, nodes);
      StartRemove(cmp, m, head, s, maxHeight, pos, key, prev);
      UnlinkAll(s, pos, target.node, prev);
      SnapRemoved(head, s, pos);
      FinishRemove(cmp, m, Snap(head, s), Snap(head, Removed(s, pos)), head, s, maxHeight, pos, key);
      nodes := Removed(s, pos);
    }

    method UnlinkAll(ghost s: seq<Node<K, V>>, ghost pos: nat, x: Node<K, V>, prev: seq<Node<K, V>>)
      requires pos < |s| && x == s[pos] && x.height <= |prev|
      requires Unlinking(Snap(head, s), Height, head, Removed(s, pos), pos, x, 0)
      requires forall i: nat :: i < x.height ==> IsPred(Height, head, Removed(s, pos), pos, prev[i], i)
      modifies head, s
      ensures Unlinking(Snap(head, s), Height, head, Removed(s, pos), pos, x, x.height)
    {
      RemovedAt(s, pos);
      hide Unlinking, Inserted, IsPred, Snap, Removed;
      for i := 0 to x.height
        invariant Unlinking(Snap(head, s), Height, head, Removed(s, pos), pos, x, i)
      {
        PredIsNode(head, Removed(s, pos), pos, prev[i], i);
        UnlinkLevel(s, pos, x, prev[i], i);
      }
    }

    method UnlinkLevel(ghost s: seq<Node<K, V>>, ghost pos: nat, x: Node<K, V>, p: Node<K, V>, i: nat)
      requires pos < |s| && x == s[pos] && i < x.height
      requires Unlinking(Snap(head, s), Height, head, Removed(s, pos), pos, x, i)
      requires IsPred(Height, head, Removed(s, pos), pos, p, i)
      modifies x, p
      ensures Unlinking(Snap(head, s), Height, head, Removed(s, pos), pos, x, i + 1)
    {
      ghost var m := Snap(head, s);
      UnlinkSlots(m, Height, head, s, pos, p, i);
      hide Unlinking, IsPred, Removed, Inserted;
      p.next := p.next[i := x.next[i]];
      ghost var m1 := Snap(head, s);
      assert m1 == m[p := p.next];
      x.next := x.next[i := Null];
      ghost var m2 := Snap(head, s);
      assert m2 == m1[x := x.next];
      UnlinkOneLevel(m, m1, m2, Height, head, Removed(s, pos), pos, x, p, i);
    }
  }

  lemma StartRemove<K(!new), V>(cmp: (K, K) -> int, m: Mem<Node<K, V>>, head: Node<K, V>, s: seq<Node<K, V>>, max: nat,
                                pos: nat, key: K, prev: seq<Node<K, V>>)
    requires Good(cmp, m, head, s, max) && Split(s, Below(cmp, key), pos) && key in Table(s)
    requires |prev| == MAX_HEIGHT && forall i: nat :: i < max ==> IsPred(Height, head, s, pos, prev[i], i)
    ensures pos < |s| && s[pos].height <= max <= MAX_HEIGHT
    ensures Unlinking(m, Height, head, Removed(s, pos), pos, s[pos], 0)
    ensures forall i: nat :: i < max ==> IsPred(Height, head, Removed(s, pos), pos, prev[i], i)
    ensures forall n :: n in Removed(s, pos) ==> n in s
  {
    hide TotalOrder, Table, IsPred, AllLevels;
    KeyAtSplit(cmp, key, s, pos);
    RemovedAt(s, pos);
    hide Ordered, Split, Removed, Inserted;
    StartUnlinking(m, Height, head, Removed(s, pos), pos, s[pos]);
    forall i: nat | i < max ensures IsPred(Height, head, Removed(s, pos), pos, prev[i], i) {
      PredOfRemoved(Height, head, s, pos, prev[i], i);
    }
  }

  lemma FinishRemove<K(!new), V>(cmp: (K, K) -> int, m0: Mem<Node<K, V>>, m: Mem<Node<K, V>>, m': Mem<Node<K, V>>,
                                 head: Node<K, V>,
                                 s: seq<Node<K, V>>, max: nat, pos: nat, key: K)
    requires Good(cmp, m0, head, s, max) && Split(s, Below(cmp, key), pos) && key in Table(s) && pos < |s|
    requires Unlinking(m, Height, head, Removed(s, pos), pos, s[pos], s[pos].height)
    requires forall n :: n in m' ==> n in m && m'[n] == m[n]
    requires head in m' && forall j :: 0 <= j < |s| - 1 ==> Removed(s, pos)[j] in m'
    ensures Good(cmp, m', head, Removed(s, pos), max)
    ensures Table(Removed(s, pos)) == Table(s) - {key}
  {
    hide TotalOrder, Split, Table, Removed, AllLevels, Unlinking;
    KeyAtSplit(cmp, key, s, pos);
    Compare(cmp, s[pos].entry.key, key);
    TableRemoved(cmp, s, pos);
    OrderedRemoved(cmp, s, pos);
    RemovedAt(s, pos);
    hide Ordered, Inserted;
    FinishUnlinking(m, Height, head, Removed(s, pos), pos, s[pos]);
    LevelsOfPart(m, m', Height, head, Removed(s, pos));
  }

  lemma HeadPrecedes<K(!new), V>(cmp: (K, K) -> int, m: Mem<Node<K, V>>, head: Node<K, V>, s: seq<Node<K, V>>,
                                 max: nat, pos: nat)
    requires Good(cmp, m, head, s, max) && pos <= |s|
    ensures forall i: nat :: max <= i < MAX_HEIGHT ==> IsPred(Height, head, s, pos, head, i)
  {
    hide TotalOrder, Ordered;
    forall i: nat | max <= i < MAX_HEIGHT ensures IsPred(Height, head, s, pos, head, i) {
      assert At(head, s, -1) == head;
    }
  }

  lemma Raised<K(!new), V>(cmp: (K, K) -> int, m: Mem<Node<K, V>>, head: Node<K, V>, s: seq<Node<K, V>>, max: nat,
                           height: nat)
    requires Good(cmp, m, head, s, max) && max <= height <= MAX_HEIGHT
    ensures Good(cmp, m, head, s, height)
  {
    hide TotalOrder, Ordered, AllLevels;
  }

  lemma StartInsert<K(!new), V>(cmp: (K, K) -> int, m: Mem<Node<K, V>>, head: Node<K, V>, s: seq<Node<K, V>>,
                                max: nat, pos: nat, x: Node<K, V>)
    requires Good(cmp, m, head, s, max) && pos <= |s| && x !in m && 1 <= x.height <= max
    ensures Linking(m[x := seq(x.height, _ => Unset)], Height, head, s, pos, x, 0)
  {
    hide TotalOrder, Ordered, AllLevels, Linking;
    StartLinking(m, Height, head, s, pos, x);
  }

  lemma FinishInsert<K(!new), V>(cmp: (K, K) -> int, m0: Mem<Node<K, V>>, m: Mem<Node<K, V>>, head: Node<K, V>,
                                 s: seq<Node<K, V>>, max: nat, pos: nat, x: Node<K, V>)
    requires Good(cmp, m0, head, s, max) && 1 <= x.height <= max
    requires x.entry.Entry? && Split(s, Below(cmp, x.entry.key), pos) && x.entry.key !in Table(s)
    requires Linking(m, Height, head, s, pos, x, x.height)
    ensures Good(cmp, m, head, Inserted(s, pos, x), max)
    ensures Table(Inserted(s, pos, x)) == Table(s)[x.entry.key := x.entry.value]
  {
    hide TotalOrder, AllLevels, Linking;
    FinishLinking(m, Height, head, s, pos, x);
    OrderedInserted(cmp, s, pos, x);
    TableInserted(s, pos, x);
    HeightsInserted(s, pos, x, max);
    hide Inserted, Table, Ordered, Split;
  }

  lemma SnapRemoved<K, V>(head: Node<K, V>, s: seq<Node<K, V>>, pos: nat)
    requires pos < |s|
    ensures var m, m' := Snap(head, s), Snap(head, Removed(s, pos));
            && head in m' && (forall j :: 0 <= j < |s| - 1 ==> Removed(s, pos)[j] in m')
            && forall n :: n in m' ==> n in m && m'[n] == m[n]
  {
    RemovedAt(s, pos);
  }

  lemma SnapKeys<K, V>(head: Node<K, V>, s: seq<Node<K, V>>, x: Node<K, V>)
    requires x != head && x !in s
    ensures x !in Snap(head, s)
  {
  }

  lemma PredIsNode<K, V>(head: Node<K, V>, s: seq<Node<K, V>>, pos: nat, n: Node<K, V>, i: nat)
    requires IsPred(Height, head, s, pos, n, i)
    ensures n == head || n in s
  {
  }

  lemma SnapInserted<K, V>(head: Node<K, V>, s: seq<Node<K, V>>, pos: nat, x: Node<K, V>)
    requires pos <= |s|
    ensures Snap(head, Inserted(s, pos, x)) == Snap(head, s)[x := x.next]
  {
    InsertedAt(s, pos, x);
    var s' := Inserted(s, pos, x);
    assert forall n :: n in s' <==> n == x || n in s;
  }

  lemma HeightsInserted<K, V>(s: seq<Node<K, V>>, pos: nat, x: Node<K, V>, max: nat)
    requires pos <= |s| && x.height <= max && forall j :: 0 <= j < |s| ==> s[j].height <= max
    ensures forall j :: 0 <= j <= |s| ==> Inserted(s, pos, x)[j].height <= max
  {
  }

  lemma EntryAt<K(!new), V>(s: seq<Node<K, V>>, cmp: (K, K) -> int, j: nat)
    requires Ordered(cmp, s) && j < |s|
    ensures s[j].entry.Entry?
  {
  }
}
