/** The pointer structure of a skip list, as a value: which node each link of each node names.

    The list at level 0 is a sequence of nodes. All other links are determined by it and by the
    heights: the link of a node at level i names the next node that is taller than i. */
module SkipLinks {
  const MAX_HEIGHT: nat := 12

  /** A link that has never been written, the null pointer, or a node. */
  datatype Link<T> = Unset | Null | To(node: T)

  type Mem<T> = map<T, seq<Link<T>>>

  /** The first node from index `j` on that is taller than `i`. */
  ghost function Succ<T>(h: T -> nat, s: seq<T>, j: nat, i: nat): Link<T>
    decreases |s| - j
  {
    if j >= |s| then Null else if h(s[j]) > i then To(s[j]) else Succ(h, s, j + 1, i)
  }

  /** No node from index `a` up to `b` is taller than `i`. */
  ghost predicate Clear<T>(h: T -> nat, s: seq<T>, a: int, b: int, i: nat) {
    forall t :: a <= t < b && 0 <= t < |s| ==> h(s[t]) <= i
  }

  ghost function Inserted<T>(s: seq<T>, pos: nat, x: T): (r: seq<T>)
    requires pos <= |s|
    ensures |r| == |s| + 1
  {
    s[..pos] + [x] + s[pos..]
  }

  /** The node with index `j`, counting the head as -1. */
  ghost function At<T>(head: T, s: seq<T>, j: int): T
    requires -1 <= j < |s|
  {
    if j == -1 then head else s[j]
  }

  lemma {:induction false} SuccFinds<T>(h: T -> nat, s: seq<T>, j: nat, i: nat) returns (t: nat)
    requires j <= |s|
    ensures j <= t <= |s| && Clear(h, s, j, t, i)
    ensures Succ(h, s, j, i) == if t < |s| then To(s[t]) else Null
    ensures t < |s| ==> h(s[t]) > i
    decreases |s| - j
  {
    if j == |s| || h(s[j]) > i {
      t := j;
    } else {
      t := SuccFinds(h, s, j + 1, i);
    }
  }

  lemma {:induction false} SuccInserted<T>(h: T -> nat, s: seq<T>, pos: nat, x: T, j: nat, i: nat)
    requires j <= pos <= |s|
    ensures Succ(h, Inserted(s, pos, x), j, i) == if h(x) > i && Clear(h, s, j, pos, i) then To(x) else Succ(h, s, j, i)
    decreases pos - j
  {
    var s' := Inserted(s, pos, x);
    if j == pos {
      assert s'[j] == x;
      SuccShifted(h, s, pos, x, j, i);
    } else {
      assert s'[j] == s[j];
      SuccInserted(h, s, pos, x, j + 1, i);
    }
  }

  lemma {:induction false} SuccShifted<T>(h: T -> nat, s: seq<T>, pos: nat, x: T, j: nat, i: nat)
    requires pos <= j && pos <= |s|
    ensures Succ(h, Inserted(s, pos, x), j + 1, i) == Succ(h, s, j, i)
    decreases |s| - j
  {
    if j < |s| {
      assert Inserted(s, pos, x)[j + 1] == s[j];
      SuccShifted(h, s, pos, x, j + 1, i);
    }
  }

  // ---------- structure ----------

  /** The nodes are distinct, none of them is the head, and each has as many links as levels. */
  ghost predicate Shaped<T>(m: Mem<T>, h: T -> nat, head: T, s: seq<T>) {
    && head in m && |m[head]| == h(head) == MAX_HEIGHT
    && head !in s
    && (forall j :: 0 <= j < |s| ==> s[j] in m && 1 <= h(s[j]) <= MAX_HEIGHT && |m[s[j]]| == h(s[j]))
    && (forall a, b :: 0 <= a < b < |s| ==> s[a] != s[b])
  }

  /** Level `i` links exactly the nodes of `s` that are taller than `i`. */
  ghost predicate LevelOk<T>(m: Mem<T>, h: T -> nat, head: T, s: seq<T>, i: nat)
    requires Shaped(m, h, head, s)
  {
    forall j :: -1 <= j < |s| && h(At(head, s, j)) > i ==> m[At(head, s, j)][i] == Succ(h, s, j + 1, i)
  }

  ghost predicate AllLevels<T>(m: Mem<T>, h: T -> nat, head: T, s: seq<T>) {
    Shaped(m, h, head, s) && forall i: nat :: i < MAX_HEIGHT ==> LevelOk(m, h, head, s, i)
  }

  /** Between links: the levels below `i` already hold the list with `x` in it, and the levels
      from `i` on still hold the list without it. */
  ghost predicate Linking<T>(m: Mem<T>, h: T -> nat, head: T, s: seq<T>, pos: nat, x: T, i: nat) {
    && pos <= |s|
    && Shaped(m, h, head, s) && Shaped(m, h, head, Inserted(s, pos, x))
    && (forall l: nat :: l < i ==> LevelOk(m, h, head, Inserted(s, pos, x), l))
    && (forall l: nat :: i <= l < MAX_HEIGHT ==> LevelOk(m, h, head, s, l))
  }

  lemma InsertedAt<T>(s: seq<T>, pos: nat, x: T)
    requires pos <= |s|
    ensures Inserted(s, pos, x)[pos] == x
    ensures forall t :: 0 <= t < pos ==> Inserted(s, pos, x)[t] == s[t]
    ensures forall t :: pos <= t < |s| ==> Inserted(s, pos, x)[t + 1] == s[t]
  {
  }

  /** The new node is not in the old list. */
  lemma NotYetIn<T>(m: Mem<T>, h: T -> nat, head: T, s: seq<T>, pos: nat, x: T)
    requires pos <= |s| && Shaped(m, h, head, Inserted(s, pos, x))
    ensures x in m && |m[x]| == h(x) <= MAX_HEIGHT && x != head && x !in s
  {
    InsertedAt(s, pos, x);
    var s' := Inserted(s, pos, x);
    assert s'[pos] == x;
    forall t | 0 <= t < |s| ensures s[t] != x {
      assert s[t] == if t < pos then s'[t] else s'[t + 1];
    }
  }

  /** `n` is the last node before index `pos` that is taller than `i`, or the head. */
  ghost predicate IsPred<T>(h: T -> nat, head: T, s: seq<T>, pos: nat, n: T, i: nat) {
    pos <= |s| && exists j :: -1 <= j < pos && n == At(head, s, j) && h(n) > i && Clear(h, s, j + 1, pos, i)
  }

  /** Both the new node and its predecessor have a link at this level. */
  lemma LinkSlots<T>(m: Mem<T>, h: T -> nat, head: T, s: seq<T>, pos: nat, x: T, p: T, i: nat)
    requires Linking(m, h, head, s, pos, x, i) && i < h(x) && IsPred(h, head, s, pos, p, i)
    ensures x in m && i < |m[x]| && p in m && i < |m[p]| && x != p && (p == head || p in s)
    ensures x in Inserted(s, pos, x) && (p == head || p in Inserted(s, pos, x))
  {
    NotYetIn(m, h, head, s, pos, x);
    InsertedAt(s, pos, x);
    assert Inserted(s, pos, x)[pos] == x;
  }

  /** A write to one link of one node. */
  ghost predicate Wrote<T>(m: Mem<T>, m': Mem<T>, n: T, i: nat, v: Link<T>) {
    n in m && i < |m[n]| && m' == m[n := m[n][i := v]]
  }

  lemma ShapeKept<T>(m: Mem<T>, m': Mem<T>, n: T, i: nat, v: Link<T>, h: T -> nat, head: T, s: seq<T>)
    requires Wrote(m, m', n, i, v) && Shaped(m, h, head, s)
    ensures Shaped(m', h, head, s)
  {
  }

  lemma LevelKept<T>(m: Mem<T>, m': Mem<T>, n: T, i: nat, v: Link<T>, h: T -> nat, head: T, s: seq<T>, l: nat)
    requires Wrote(m, m', n, i, v) && Shaped(m, h, head, s) && Shaped(m', h, head, s)
    requires l < MAX_HEIGHT && LevelOk(m, h, head, s, l)
    requires l != i || (n != head && n !in s)
    ensures LevelOk(m', h, head, s, l)
  {
  }

  /** Writing the new node's own link disturbs nothing. */
  lemma OwnLinkKeeps<T>(m: Mem<T>, m': Mem<T>, h: T -> nat, head: T, s: seq<T>, pos: nat, x: T, i: nat, v: Link<T>)
    requires Linking(m, h, head, s, pos, x, i) && i < h(x)
    requires Wrote(m, m', x, i, v)
    ensures Linking(m', h, head, s, pos, x, i)
  {
    var s' := Inserted(s, pos, x);
    NotYetIn(m, h, head, s, pos, x);
    ShapeKept(m, m', x, i, v, h, head, s);
    ShapeKept(m, m', x, i, v, h, head, s');
    forall l: nat | l < i ensures LevelOk(m', h, head, s', l) { LevelKept(m, m', x, i, v, h, head, s', l); }
    forall l: nat | i <= l < MAX_HEIGHT ensures LevelOk(m', h, head, s, l) { LevelKept(m, m', x, i, v, h, head, s, l); }
  }

  /** The predecessor's link carries what the new node's own link must be. */
  lemma PredecessorLink<T>(m: Mem<T>, h: T -> nat, head: T, s: seq<T>, pos: nat, x: T, j: int, i: nat)
    requires Linking(m, h, head, s, pos, x, i) && i < h(x)
    requires -1 <= j < pos && h(At(head, s, j)) > i && Clear(h, s, j + 1, pos, i)
    ensures At(head, s, j) in m && i < |m[At(head, s, j)]|
    ensures m[At(head, s, j)][i] == Succ(h, Inserted(s, pos, x), pos + 1, i)
  {
    NotYetIn(m, h, head, s, pos, x);
    assert LevelOk(m, h, head, s, i);
    SuccSkips(h, s, j + 1, pos, i);
    SuccShifted(h, s, pos, x, pos, i);
  }

  lemma {:induction false} SuccSkips<T>(h: T -> nat, s: seq<T>, a: nat, b: nat, i: nat)
    requires a <= b <= |s| && Clear(h, s, a, b, i)
    ensures Succ(h, s, a, i) == Succ(h, s, b, i)
    decreases b - a
  {
    if a < b { SuccSkips(h, s, a + 1, b, i); }
  }

  /** Publishing the new node at level `i` makes that level hold the new list. */
  lemma PublishLinks<T>(m: Mem<T>, m': Mem<T>, h: T -> nat, head: T, s: seq<T>, pos: nat, x: T, j: int, i: nat)
    requires Linking(m, h, head, s, pos, x, i) && i < h(x)
    requires -1 <= j < pos && h(At(head, s, j)) > i && Clear(h, s, j + 1, pos, i)
    requires Wrote(m, m', At(head, s, j), i, To(x))
    requires x in m && i < |m[x]| && m[x][i] == Succ(h, Inserted(s, pos, x), pos + 1, i)
    ensures Linking(m', h, head, s, pos, x, i + 1)
  {
    var s', p := Inserted(s, pos, x), At(head, s, j);
    NotYetIn(m, h, head, s, pos, x);
    ShapeKept(m, m', p, i, To(x), h, head, s);
    ShapeKept(m, m', p, i, To(x), h, head, s');
    forall l: nat | l < i ensures LevelOk(m', h, head, s', l) { LevelKept(m, m', p, i, To(x), h, head, s', l); }
    forall l: nat | i < l < MAX_HEIGHT ensures LevelOk(m', h, head, s, l) {
      LevelKept(m, m', p, i, To(x), h, head, s, l);
    }
    LevelPublished(m, m', h, head, s, pos, x, j, i);
  }

  /** Insert's two writes at one level. */
  lemma LinkOneLevel<T>(m: Mem<T>, m1: Mem<T>, m2: Mem<T>, h: T -> nat, head: T, s: seq<T>, pos: nat, x: T, p: T,
                        i: nat)
    requires Linking(m, h, head, s, pos, x, i) && i < h(x) && IsPred(h, head, s, pos, p, i)
    requires p in m && i < |m[p]| && Wrote(m, m1, x, i, m[p][i]) && Wrote(m1, m2, p, i, To(x))
    ensures Linking(m2, h, head, s, pos, x, i + 1)
  {
    var j :| -1 <= j < pos && p == At(head, s, j) && h(p) > i && Clear(h, s, j + 1, pos, i);
    PredecessorLink(m, h, head, s, pos, x, j, i);
    OwnLinkKeeps(m, m1, h, head, s, pos, x, i, m[p][i]);
    PublishLinks(m1, m2, h, head, s, pos, x, j, i);
  }

  lemma LevelPublished<T>(m: Mem<T>, m': Mem<T>, h: T -> nat, head: T, s: seq<T>, pos: nat, x: T, j: int, i: nat)
    requires pos <= |s| && Shaped(m, h, head, s) && Shaped(m', h, head, Inserted(s, pos, x)) && i < h(x)
    requires LevelOk(m, h, head, s, i) && x != head && x !in s
    requires -1 <= j < pos && h(At(head, s, j)) > i && Clear(h, s, j + 1, pos, i)
    requires Wrote(m, m', At(head, s, j), i, To(x))
    requires x in m && i < |m[x]| && m[x][i] == Succ(h, Inserted(s, pos, x), pos + 1, i)
    ensures LevelOk(m', h, head, Inserted(s, pos, x), i)
  {
    var s', p := Inserted(s, pos, x), At(head, s, j);
    InsertedAt(s, pos, x);
    forall t | -1 <= t < |s'| && h(At(head, s', t)) > i
      ensures m'[At(head, s', t)][i] == Succ(h, s', t + 1, i)
    {
      if t < pos {
        assert At(head, s', t) == At(head, s, t);
        SuccInserted(h, s, pos, x, t + 1, i);
        if t < j {
          assert !Clear(h, s, t + 1, pos, i) by { assert h(s[j]) > i; }
        } else {
          assert t == j;
        }
      } else if t > pos {
        assert At(head, s', t) == s[t - 1] == At(head, s, t - 1);
        SuccShifted(h, s, pos, x, t, i);
      }
    }
  }

  lemma StartLinking<T>(m: Mem<T>, h: T -> nat, head: T, s: seq<T>, pos: nat, x: T)
    requires AllLevels(m, h, head, s) && pos <= |s|
    requires x !in m && 1 <= h(x) <= MAX_HEIGHT
    ensures Linking(m[x := seq(h(x), _ => Unset)], h, head, s, pos, x, 0)
  {
    var m', s' := m[x := seq(h(x), _ => Unset)], Inserted(s, pos, x);
    InsertedAt(s, pos, x);
    forall a, b | 0 <= a < b < |s'| ensures s'[a] != s'[b] {
      assert s'[a] == if a < pos then s[a] else if a == pos then x else s[a - 1];
      assert s'[b] == if b < pos then s[b] else if b == pos then x else s[b - 1];
    }
    forall j | 0 <= j < |s'|
      ensures s'[j] in m' && 1 <= h(s'[j]) <= MAX_HEIGHT && |m'[s'[j]]| == h(s'[j]) && s'[j] != head
    {
      assert s'[j] == if j < pos then s[j] else if j == pos then x else s[j - 1];
    }
    forall l: nat | l < MAX_HEIGHT ensures LevelOk(m', h, head, s, l) {
      assert LevelOk(m, h, head, s, l);
    }
  }

  /** A node that is not taller than `l` does not show at level `l`. */
  lemma BelowLevel<T>(h: T -> nat, head: T, s: seq<T>, pos: nat, x: T, l: nat, t: int)
    requires pos <= |s| && h(x) <= l && -1 <= t < |s|
    ensures var u := if t < pos then t else t + 1;
            At(head, Inserted(s, pos, x), u) == At(head, s, t)
            && Succ(h, Inserted(s, pos, x), u + 1, l) == Succ(h, s, t + 1, l)
  {
    InsertedAt(s, pos, x);
    if t < pos {
      SuccInserted(h, s, pos, x, t + 1, l);
    } else {
      SuccShifted(h, s, pos, x, t + 1, l);
    }
  }

  lemma LevelGains<T>(m: Mem<T>, h: T -> nat, head: T, s: seq<T>, pos: nat, x: T, l: nat)
    requires pos <= |s| && Shaped(m, h, head, s) && Shaped(m, h, head, Inserted(s, pos, x)) && h(x) <= l < MAX_HEIGHT
    requires LevelOk(m, h, head, s, l)
    ensures LevelOk(m, h, head, Inserted(s, pos, x), l)
  {
    var s' := Inserted(s, pos, x);
    InsertedAt(s, pos, x);
    forall u | -1 <= u < |s'| && h(At(head, s', u)) > l ensures m[At(head, s', u)][l] == Succ(h, s', u + 1, l) {
      assert u != pos;
      BelowLevel(h, head, s, pos, x, l, if u < pos then u else u - 1);
    }
  }

  lemma LevelLoses<T>(m: Mem<T>, h: T -> nat, head: T, s: seq<T>, pos: nat, x: T, l: nat)
    requires pos <= |s| && Shaped(m, h, head, s) && Shaped(m, h, head, Inserted(s, pos, x)) && h(x) <= l < MAX_HEIGHT
    requires LevelOk(m, h, head, Inserted(s, pos, x), l)
    ensures LevelOk(m, h, head, s, l)
  {
    forall t | -1 <= t < |s| && h(At(head, s, t)) > l ensures m[At(head, s, t)][l] == Succ(h, s, t + 1, l) {
      BelowLevel(h, head, s, pos, x, l, t);
    }
  }

  /** Once the new node is linked at all its levels, every level holds the new list. */
  lemma FinishLinking<T>(m: Mem<T>, h: T -> nat, head: T, s: seq<T>, pos: nat, x: T)
    requires Linking(m, h, head, s, pos, x, h(x))
    ensures AllLevels(m, h, head, Inserted(s, pos, x))
  {
    NotYetIn(m, h, head, s, pos, x);
    forall l: nat | l < MAX_HEIGHT ensures LevelOk(m, h, head, Inserted(s, pos, x), l) {
      if l >= h(x) { LevelGains(m, h, head, s, pos, x, l); }
    }
  }

  // ---------- what a level holds ----------

  /** The nodes taller than `i`, in list order. */
  ghost function Tall<T>(h: T -> nat, s: seq<T>, i: nat): seq<T>
    decreases |s|
  {
    if s == [] then [] else (if h(s[0]) > i then [s[0]] else []) + Tall(h, s[1..], i)
  }

  lemma {:induction false} SuccIsTall<T>(h: T -> nat, s: seq<T>, j: nat, i: nat)
    requires j <= |s|
    ensures var t := Tall(h, s[j..], i); Succ(h, s, j, i) == if t == [] then Null else To(t[0])
    decreases |s| - j
  {
    if j < |s| {
      assert s[j..][0] == s[j] && s[j..][1..] == s[j + 1..];
      SuccIsTall(h, s, j + 1, i);
    }
  }

  /** From the head on, the links of level `i` run through exactly the nodes taller than `i`. */
  lemma LevelIsChain<T>(m: Mem<T>, h: T -> nat, head: T, s: seq<T>, i: nat, k: nat)
    requires i < MAX_HEIGHT && AllLevels(m, h, head, s)
    requires k <= |Tall(h, s, i)|
    ensures var c := [head] + Tall(h, s, i);
            c[k] in m && i < |m[c[k]]| && m[c[k]][i] == if k < |c| - 1 then To(c[k + 1]) else Null
  {
    assert LevelOk(m, h, head, s, i);
    hide Tall, Succ, Shaped;
    if k == 0 {
      assert s[0..] == s;
      SuccIsTall(h, s, 0, i);
      assert At(head, s, -1) == head;
    } else {
      var j := TallIndex(h, s, i, k - 1);
      SuccIsTall(h, s, j + 1, i);
      assert At(head, s, j) == s[j];
    }
  }

  lemma {:induction false} TallIndex<T>(h: T -> nat, s: seq<T>, i: nat, k: nat) returns (j: nat)
    requires k < |Tall(h, s, i)|
    ensures j < |s| && s[j] == Tall(h, s, i)[k] && h(s[j]) > i
    ensures Tall(h, s[j + 1..], i) == Tall(h, s, i)[k + 1..]
    decreases |s|
  {
    var first := if h(s[0]) > i then 1 else 0;
    if first == 1 && k == 0 {
      j := 0;
      assert ([s[0]] + Tall(h, s[1..], i))[1..] == Tall(h, s[1..], i);
    } else {
      var r := TallIndex(h, s[1..], i, k - first);
      j := r + 1;
      assert s[1..][r + 1..] == s[j + 1..];
      var rest := Tall(h, s[1..], i);
      assert Tall(h, s, i) == (if first == 1 then [s[0]] else []) + rest;
      assert Tall(h, s, i)[k + 1..] == rest[k - first + 1..];
    }
  }

  /** A higher level is a subsequence of every level below it. */
  lemma {:induction false} LevelsNest<T>(h: T -> nat, s: seq<T>, i: nat, l: nat)
    requires i <= l
    ensures Tall(h, Tall(h, s, i), l) == Tall(h, s, l)
    decreases |s|
  {
    if s != [] {
      LevelsNest(h, s[1..], i, l);
      var rest := Tall(h, s[1..], i);
      if h(s[0]) > i {
        assert Tall(h, s, i) == [s[0]] + rest && ([s[0]] + rest)[1..] == rest;
      } else {
        assert Tall(h, s, i) == rest;
        assert Tall(h, s, l) == Tall(h, s[1..], l);
      }
    }
  }

  // ---------- removal ----------

  /** While `x` is unlinked: the levels below `i` hold the list without it, the others still
      hold the list with it. */
  ghost predicate Unlinking<T>(m: Mem<T>, h: T -> nat, head: T, s: seq<T>, pos: nat, x: T, i: nat) {
    && pos <= |s|
    && Shaped(m, h, head, s) && Shaped(m, h, head, Inserted(s, pos, x))
    && (forall l: nat :: l < i && l < MAX_HEIGHT ==> LevelOk(m, h, head, s, l))
    && (forall l: nat :: i <= l < MAX_HEIGHT ==> LevelOk(m, h, head, Inserted(s, pos, x), l))
  }

  lemma StartUnlinking<T>(m: Mem<T>, h: T -> nat, head: T, s: seq<T>, pos: nat, x: T)
    requires pos <= |s| && AllLevels(m, h, head, Inserted(s, pos, x))
    ensures Unlinking(m, h, head, s, pos, x, 0)
  {
    InsertedAt(s, pos, x);
    var s' := Inserted(s, pos, x);
    assert forall t :: 0 <= t < |s| ==> s[t] == s'[if t < pos then t else t + 1];
    assert s'[pos] == x;
  }

  /** The predecessor of `x` at level `i` in the list with `x` takes over the link of `x`. */
  lemma UnlinkLevel<T>(m: Mem<T>, m1: Mem<T>, m2: Mem<T>, h: T -> nat, head: T, s: seq<T>, pos: nat, x: T, j: int,
                       i: nat)
    requires Unlinking(m, h, head, s, pos, x, i) && i < h(x)
    requires -1 <= j < pos && h(At(head, s, j)) > i && Clear(h, s, j + 1, pos, i)
    requires x in m && i < |m[x]| && Wrote(m, m1, At(head, s, j), i, m[x][i]) && Wrote(m1, m2, x, i, Null)
    ensures Unlinking(m2, h, head, s, pos, x, i + 1)
  {
    var s', p, v := Inserted(s, pos, x), At(head, s, j), m[x][i];
    NotYetIn(m, h, head, s, pos, x);
    ShapeKept(m, m1, p, i, v, h, head, s);
    ShapeKept(m, m1, p, i, v, h, head, s');
    ShapeKept(m1, m2, x, i, Null, h, head, s);
    ShapeKept(m1, m2, x, i, Null, h, head, s');
    forall l: nat | l < i && l < MAX_HEIGHT ensures LevelOk(m2, h, head, s, l) {
      LevelKept(m, m1, p, i, v, h, head, s, l);
      LevelKept(m1, m2, x, i, Null, h, head, s, l);
    }
    forall l: nat | i < l < MAX_HEIGHT ensures LevelOk(m2, h, head, s', l) {
      LevelKept(m, m1, p, i, v, h, head, s', l);
      LevelKept(m1, m2, x, i, Null, h, head, s', l);
    }
    LevelUnlinked(m, m1, h, head, s, pos, x, j, i);
    LevelKept(m1, m2, x, i, Null, h, head, s, i);
  }

  lemma LevelUnlinked<T>(m: Mem<T>, m1: Mem<T>, h: T -> nat, head: T, s: seq<T>, pos: nat, x: T, j: int, i: nat)
    requires pos <= |s| && Shaped(m, h, head, Inserted(s, pos, x)) && Shaped(m1, h, head, s)
    requires i < h(x) && i < MAX_HEIGHT
    requires LevelOk(m, h, head, Inserted(s, pos, x), i)
    requires -1 <= j < pos && h(At(head, s, j)) > i && Clear(h, s, j + 1, pos, i)
    requires x in m && i < |m[x]| && Wrote(m, m1, At(head, s, j), i, m[x][i])
    ensures LevelOk(m1, h, head, s, i)
  {
    var s' := Inserted(s, pos, x);
    InsertedAt(s, pos, x);
    assert At(head, s', pos) == x;
    assert m[x][i] == Succ(h, s, pos, i) by { SuccShifted(h, s, pos, x, pos, i); }
    forall t | -1 <= t < |s| && h(At(head, s, t)) > i ensures m1[At(head, s, t)][i] == Succ(h, s, t + 1, i) {
      UnlinkedAt(h, head, s, pos, x, j, i, t);
    }
  }

  /** How the lists with and without `x` continue behind the node with index `t`. */
  lemma UnlinkedAt<T>(h: T -> nat, head: T, s: seq<T>, pos: nat, x: T, j: int, i: nat, t: int)
    requires pos <= |s| && -1 <= t < |s| && h(At(head, s, t)) > i && i < h(x)
    requires -1 <= j < pos && h(At(head, s, j)) > i && Clear(h, s, j + 1, pos, i)
    ensures var u := if t < pos then t else t + 1;
            At(head, Inserted(s, pos, x), u) == At(head, s, t)
            && if t == j then Succ(h, s, t + 1, i) == Succ(h, s, pos, i)
               else Succ(h, Inserted(s, pos, x), u + 1, i) == Succ(h, s, t + 1, i)
  {
    InsertedAt(s, pos, x);
    if t < pos {
      SuccInserted(h, s, pos, x, t + 1, i);
      if t < j {
        assert !Clear(h, s, t + 1, pos, i) by { assert h(s[j]) > i; }
      } else {
        assert t == j;
        SuccSkips(h, s, j + 1, pos, i);
      }
    } else {
      SuccShifted(h, s, pos, x, t + 1, i);
    }
  }

  lemma FinishUnlinking<T>(m: Mem<T>, h: T -> nat, head: T, s: seq<T>, pos: nat, x: T)
    requires Unlinking(m, h, head, s, pos, x, h(x))
    ensures AllLevels(m, h, head, s)
  {
    forall l: nat | l < MAX_HEIGHT ensures LevelOk(m, h, head, s, l) {
      if l >= h(x) { LevelLoses(m, h, head, s, pos, x, l); }
    }
  }

  /** Remove's two writes at one level. */
  lemma UnlinkOneLevel<T>(m: Mem<T>, m1: Mem<T>, m2: Mem<T>, h: T -> nat, head: T, s: seq<T>, pos: nat, x: T, p: T,
                          i: nat)
    requires Unlinking(m, h, head, s, pos, x, i) && i < h(x) && IsPred(h, head, s, pos, p, i)
    requires x in m && i < |m[x]| && Wrote(m, m1, p, i, m[x][i]) && Wrote(m1, m2, x, i, Null)
    ensures Unlinking(m2, h, head, s, pos, x, i + 1)
  {
    var j :| -1 <= j < pos && p == At(head, s, j) && h(p) > i && Clear(h, s, j + 1, pos, i);
    UnlinkLevel(m, m1, m2, h, head, s, pos, x, j, i);
  }

  /** Only the links of the head and of the list's own nodes matter. */
  lemma LevelsOfPart<T>(m: Mem<T>, m': Mem<T>, h: T -> nat, head: T, s: seq<T>)
    requires AllLevels(m, h, head, s)
    requires forall n :: n in m' ==> n in m && m'[n] == m[n]
    requires head in m' && forall j :: 0 <= j < |s| ==> s[j] in m'
    ensures AllLevels(m', h, head, s)
  {
    forall l: nat | l < MAX_HEIGHT ensures LevelOk(m', h, head, s, l) {
      assert LevelOk(m, h, head, s, l);
    }
  }

  ghost function Removed<T>(s: seq<T>, pos: nat): seq<T>
    requires pos < |s|
  {
    s[..pos] + s[pos + 1..]
  }

  lemma RemovedAt<T>(s: seq<T>, pos: nat)
    requires pos < |s|
    ensures |Removed(s, pos)| == |s| - 1 && Inserted(Removed(s, pos), pos, s[pos]) == s
    ensures forall t :: 0 <= t < |s| - 1 ==> Removed(s, pos)[t] == s[if t < pos then t else t + 1]
  {
  }

  lemma UnlinkSlots<T>(m: Mem<T>, h: T -> nat, head: T, s: seq<T>, pos: nat, p: T, i: nat)
    requires pos < |s| && i < h(s[pos])
    requires Unlinking(m, h, head, Removed(s, pos), pos, s[pos], i) && IsPred(h, head, Removed(s, pos), pos, p, i)
    ensures s[pos] in m && i < |m[s[pos]]| && p in m && i < |m[p]| && s[pos] != p && (p == head || p in s)
  {
    NotYetIn(m, h, head, Removed(s, pos), pos, s[pos]);
    RemovedAt(s, pos);
  }

  lemma PredOfRemoved<T>(h: T -> nat, head: T, s: seq<T>, pos: nat, n: T, i: nat)
    requires pos < |s| && IsPred(h, head, s, pos, n, i)
    ensures IsPred(h, head, Removed(s, pos), pos, n, i)
  {
    RemovedAt(s, pos);
    var j :| -1 <= j < pos && n == At(head, s, j) && h(n) > i && Clear(h, s, j + 1, pos, i);
    assert n == At(head, Removed(s, pos), j);
    assert Clear(h, Removed(s, pos), j + 1, pos, i);
  }

  // ---------- search ----------

  /** The nodes with a key below the one that is looked for are the first `pos`. */
  ghost predicate Split<T>(s: seq<T>, below: T -> bool, pos: nat) {
    pos <= |s| && forall j :: 0 <= j < |s| ==> (below(s[j]) <==> j < pos)
  }

  /** One step of a search that stands on the node with index `ix` at level `i`: either the
      next node is still below the key, or no node up to the key is as tall as this level. */
  lemma SearchStep<T>(m: Mem<T>, h: T -> nat, head: T, s: seq<T>, below: T -> bool, pos: nat, ix: int, i: nat)
    returns (t: int)
    requires Shaped(m, h, head, s) && i < MAX_HEIGHT && LevelOk(m, h, head, s, i) && Split(s, below, pos)
    requires -1 <= ix < pos && h(At(head, s, ix)) > i
    ensures At(head, s, ix) in m && i < |m[At(head, s, ix)]|
    ensures var next := m[At(head, s, ix)][i];
            && !next.Unset?
            && (if next.To? && below(next.node) then ix < t < pos && s[t] == next.node && h(s[t]) > i
                else Clear(h, s, ix + 1, pos, i))
            && (i == 0 && !(next.To? && below(next.node)) ==>
                  ix + 1 == pos && next == if pos < |s| then To(s[pos]) else Null)
  {
    t := SuccFinds(h, s, ix + 1, i);
    if i == 0 && !(t < |s| && below(s[t])) {
      assert forall u :: 0 <= u < |s| ==> h(s[u]) > 0;
      assert ix + 1 >= pos;
    }
  }
}
