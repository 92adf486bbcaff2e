/** Searches and insertions on the shared skip list come to an end. */
module SkipProgress {
  import opened SkipLinks
  import opened SkipLists
  import opened SkipConcurrent

  // ---------- places in a list ----------

  /** Where `x` is first, or the length of the list. */
  ghost function IndexOf<T>(s: seq<T>, x: T): nat
    decreases |s|
  {
    if s == [] || s[0] == x then 0 else 1 + IndexOf(s[1..], x)
  }

  lemma {:induction false} IndexAt<T>(s: seq<T>, t: nat)
    requires t < |s| && forall a :: 0 <= a < t ==> s[a] != s[t]
    ensures IndexOf(s, s[t]) == t
    decreases t
  {
    if t > 0 {
      assert s[0] != s[t] && forall a :: 0 <= a < t - 1 ==> s[1..][a] == s[a + 1];
      IndexAt(s[1..], t - 1);
    }
  }

  lemma {:induction false} IndexIn<T>(s: seq<T>, x: T)
    requires x in s
    ensures IndexOf(s, x) < |s| && s[IndexOf(s, x)] == x
    decreases |s|
  {
    if s[0] != x { IndexIn(s[1..], x); }
  }

  /** An insertion moves what is behind it by one, and nothing else. */
  lemma {:induction false} IndexInserted<T>(s: seq<T>, pos: nat, x: T, n: T)
    requires pos <= |s| && n in s && n != x
    ensures IndexOf(Inserted(s, pos, x), n) == IndexOf(s, n) + if IndexOf(s, n) < pos then 0 else 1
    decreases |s|
  {
    var s' := Inserted(s, pos, x);
    if pos == 0 {
      assert s' == [x] + s && s'[1..] == s;
    } else {
      assert s'[0] == s[0] && s'[1..] == Inserted(s[1..], pos - 1, x);
      if s[0] != n { IndexInserted(s[1..], pos - 1, x, n); }
    }
  }

  /** How far a search has come: the head is at 0. */
  ghost function Rank<T>(head: T, s: seq<T>, n: T): nat {
    if n == head then 0 else 1 + IndexOf(s, n)
  }

  lemma RankInserted<T>(head: T, s: seq<T>, pos: nat, x: T, n: T)
    requires pos <= |s| && (n == head || (n in s && n != x))
    ensures Rank(head, Inserted(s, pos, x), n) >= Rank(head, s, n)
  {
    if n != head { IndexInserted(s, pos, x, n); }
  }

  /** The order of two nodes does not depend on the level. */
  lemma RankOrder<T>(head: T, s: seq<T>, pos: nat, x: T, a: T, b: T)
    requires pos <= |s| && (a == head || (a in s && a != x)) && b in s && b != x && b != head
    requires Rank(head, s, a) < Rank(head, s, b)
    ensures Rank(head, Inserted(s, pos, x), a) < Rank(head, Inserted(s, pos, x), b)
  {
    if a != head { IndexInserted(s, pos, x, a); }
    IndexInserted(s, pos, x, b);
  }

  // ---------- one load ----------

  /** A link leads forward. */
  lemma LinkForward<K(!new), V>(head: Node<K, V>, mem: Mem<Node<K, V>>, s: seq<Node<K, V>>, n: Node<K, V>,
                                level: nat)
    requires level < MAX_HEIGHT && Shaped(mem, Height, head, s) && LevelOk(mem, Height, head, s, level)
    requires n.height > level && (n == head || n in s)
    ensures n in mem && level < |mem[n]|
    ensures mem[n][level].To? ==>
      var m := mem[n][level].node; m in s && m != head && Rank(head, s, n) < Rank(head, s, m)
  {
    var ix := if n == head then -1 else IndexOf(s, n);
    if n != head { IndexIn(s, n); }
    assert At(head, s, ix) == n;
    var t := SuccFinds(Height, s, ix + 1, level);
    if t < |s| { IndexAt(s, t); }
  }

  /** What the levels have in common at one moment: each holds the list of level 0, or that list
      without the node that is being inserted. */
  lemma TwoLists<K(!new), V>(cmp: (K, K) -> int, head: Node<K, V>, st: State<K, V>, l: nat)
    requires WriterInv(cmp, head, st)
    ensures ListAt(st, l) == ListAt(st, 0)
            || (st.writer.Busy? && st.writer.pos <= |st.nodes| && ListAt(st, l) == st.nodes && st.writer.x !in st.nodes
                && st.writer.x != head && ListAt(st, 0) == Inserted(st.nodes, st.writer.pos, st.writer.x))
  {
    hide TotalOrder, Ordered, AllLevels, Table, Split, Shaped, LevelOk, Inserted;
    if st.writer.Busy? { NotYetIn(st.mem, Height, head, st.nodes, st.writer.pos, st.writer.x); }
  }

  /** What is left to a search, up to a constant: levels to go down less the nodes it has passed. */
  ghost function Left<K, V>(head: Node<K, V>, st: State<K, V>, r: Reader<K, V>): int
    requires r.Searching?
  {
    r.level - Rank(head, ListAt(st, 0), r.at)
  }

  ghost predicate SameSearch<K, V>(r: Reader<K, V>, r': Reader<K, V>) {
    !r.Crashed? && !r'.Crashed? && r'.key == r.key && r'.seen == r.seen
  }

  /** The search has returned, or at most `left` is left to it. */
  ghost predicate Within<K, V>(head: Node<K, V>, st: State<K, V>, r: Reader<K, V>, left: int) {
    r.Returned? || (r.Searching? && Left(head, st, r) <= left)
  }

  /** Every load goes down a level, goes on to a later node, or returns. */
  lemma LoadProgresses<K(!new), V>(cmp: (K, K) -> int, head: Node<K, V>, st: State<K, V>, r: Reader<K, V>)
    requires WriterInv(cmp, head, st) && r.Searching? && ReaderInv(cmp, head, st, r)
    ensures var r' := AfterLoad(cmp, st.mem, r);
            SameSearch(r, r') && Within(head, st, r', Left(head, st, r) - 1)
  {
    LoadKeeps(cmp, head, st, r);
    NextIsAhead(cmp, head, st, r);
    hide WriterInv, Stands, Correct, SkipConcurrent.Within, Rank, ListAt, IsBelow;
  }

  /** In the list of level 0, the node that the link leads to is behind the one where the search is. */
  lemma NextIsAhead<K(!new), V>(cmp: (K, K) -> int, head: Node<K, V>, st: State<K, V>, r: Reader<K, V>)
    requires WriterInv(cmp, head, st) && r.Searching? && ReaderInv(cmp, head, st, r)
    ensures r.at in st.mem && r.level < |st.mem[r.at]|
    ensures var next := st.mem[r.at][r.level];
            next.To? ==> Rank(head, ListAt(st, 0), r.at) < Rank(head, ListAt(st, 0), next.node)
  {
    LevelFacts(cmp, head, st, r.level);
    TwoLists(cmp, head, st, r.level);
    hide TotalOrder, Ordered, Shaped, LevelOk, WriterInv, SkipConcurrent.Within, Rank, Inserted, Visible, ListAt;
    hide IsBelow;
    var s := ListAt(st, r.level);
    LinkForward(head, st.mem, s, r.at, r.level);
    var next := st.mem[r.at][r.level];
    if next.To? && s != ListAt(st, 0) {
      RankOrder(head, s, st.writer.pos, st.writer.x, r.at, next.node);
    }
  }

  // ---------- steps of other threads ----------

  /** Level 0 keeps what it has, and may get the new node. */
  lemma LevelZeroGrows<K(!new), V>(cmp: (K, K) -> int, head: Node<K, V>, st: State<K, V>, a: Label<K, V>,
                                   st': State<K, V>)
    requires WriterInv(cmp, head, st) && WriterStep(cmp, head, st, a, st')
    ensures ListAt(st', 0) == ListAt(st, 0)
            || (st.writer.Busy? && st.writer.pos <= |st.nodes| && ListAt(st, 0) == st.nodes && st.writer.x !in st.nodes
                && ListAt(st', 0) == Inserted(st.nodes, st.writer.pos, st.writer.x))
  {
    hide TotalOrder, Ordered, AllLevels, Table, Split, Shaped, LevelOk, Inserted, Wrote, IsPred;
    if st.writer.Busy? { NotYetIn(st.mem, Height, head, st.nodes, st.writer.pos, st.writer.x); }
  }

  /** What the inserting thread does never sets a search back. */
  lemma WriterKeepsLeft<K(!new), V>(cmp: (K, K) -> int, head: Node<K, V>, st: State<K, V>, a: Label<K, V>,
                                    st': State<K, V>, r: Reader<K, V>)
    requires WriterInv(cmp, head, st) && WriterStep(cmp, head, st, a, st')
    requires r.Searching? && ReaderInv(cmp, head, st, r)
    ensures Left(head, st', r) <= Left(head, st, r)
  {
    LevelZeroGrows(cmp, head, st, a, st');
    assert r.at == head || r.at in ListAt(st, 0) by {
      if r.at != head { LowerList(st, r.at, r.level, 0); }
    }
    hide WriterInv, WriterStep, ReaderInv, ListAt, Rank, Inserted;
    if ListAt(st', 0) != ListAt(st, 0) {
      RankInserted(head, st.nodes, st.writer.pos, st.writer.x, r.at);
    }
  }

  /** `a` is a step of search `r`. */
  predicate Loads<K, V>(a: Label<K, V>, r: nat) { a.ReadLink? && a.r == r }

  predicate Restarts<K, V>(a: Label<K, V>, r: nat) { a.BeginFind? && a.r == r }

  /** One step of any thread: a search that goes on has as much left as before, or less after a load
      of its own. */
  lemma StepProgresses<K(!new), V>(cmp: (K, K) -> int, head: Node<K, V>, st: State<K, V>, a: Label<K, V>,
                                   st': State<K, V>, r: nat)
    requires Inv(cmp, head, st) && Step(cmp, head, st, a, st') && r in st.readers && !Restarts(a, r)
    ensures r in st'.readers && SameSearch(st.readers[r], st'.readers[r])
    ensures st.readers[r].Returned? ==> st'.readers[r].Returned?
    ensures st.readers[r].Searching? ==>
      Within(head, st', st'.readers[r], Left(head, st, st.readers[r]) - if Loads(a, r) then 1 else 0)
  {
    assert ReaderInv(cmp, head, st, st.readers[r]);
    hide WriterInv, ReaderInv, Left, AfterLoad;
    if WriterStep(cmp, head, st, a, st') {
      WriterOnly(cmp, head, st, a, st');
      hide WriterStep;
      if st.readers[r].Searching? { WriterKeepsLeft(cmp, head, st, a, st', st.readers[r]); }
    } else {
      SameList(cmp, head, st, st');
      SameLeft(head, st, st');
      if Loads(a, r) { LoadProgresses(cmp, head, st, st.readers[r]); }
    }
  }

  lemma WriterOnly<K(!new), V>(cmp: (K, K) -> int, head: Node<K, V>, st: State<K, V>, a: Label<K, V>, st': State<K, V>)
    requires WriterStep(cmp, head, st, a, st')
    ensures st'.readers == st.readers && !a.ReadLink? && !a.BeginFind?
  {
  }

  lemma SameLeft<K, V>(head: Node<K, V>, st: State<K, V>, st': State<K, V>)
    requires ListAt(st', 0) == ListAt(st, 0)
    ensures forall r: Reader<K, V> :: r.Searching? ==> Left(head, st', r) == Left(head, st, r)
  {
  }

  // ---------- runs ----------

  /** How many loads search `r` makes from state `j` to state `k`. */
  ghost function Count<K, V>(labels: seq<Label<K, V>>, r: nat, j: nat, k: nat): nat
    requires j <= k <= |labels|
  {
    if j == k then 0 else Count(labels, r, j, k - 1) + if Loads(labels[k - 1], r) then 1 else 0
  }

  lemma {:induction false} RunProgresses<K(!new), V>(cmp: (K, K) -> int, head: Node<K, V>, states: seq<State<K, V>>,
                                                     labels: seq<Label<K, V>>, r: nat, j: nat, k: nat)
    requires Run(cmp, head, states, labels) && j <= k < |states|
    requires r in states[j].readers && states[j].readers[r].Searching?
    requires forall i :: j <= i < k ==> !Restarts(labels[i], r)
    ensures r in states[k].readers && SameSearch(states[j].readers[r], states[k].readers[r])
    ensures Within(head, states[k], states[k].readers[r],
                   Left(head, states[j], states[j].readers[r]) - Count(labels, r, j, k))
    decreases k
  {
    hide Left, Inv, Step;
    if j < k {
      RunProgresses(cmp, head, states, labels, r, j, k - 1);
      RunKeepsInv(cmp, head, states, labels, k - 1);
      assert Step(cmp, head, states[k - 1], labels[k - 1], states[k]);
      hide Run, Within, SameSearch;
      var st, a, st' := states[k - 1], labels[k - 1], states[k];
      assert !Restarts(a, r);
      StepAfter(cmp, head, st, a, st', r, states[j].readers[r],
                Left(head, states[j], states[j].readers[r]) - Count(labels, r, j, k - 1));
    }
  }

  lemma StepAfter<K(!new), V>(cmp: (K, K) -> int, head: Node<K, V>, st: State<K, V>, a: Label<K, V>,
                              st': State<K, V>, r: nat, first: Reader<K, V>, left: int)
    requires Inv(cmp, head, st) && Step(cmp, head, st, a, st') && r in st.readers && !Restarts(a, r)
    requires SameSearch(first, st.readers[r]) && Within(head, st, st.readers[r], left)
    ensures r in st'.readers && SameSearch(first, st'.readers[r])
    ensures Within(head, st', st'.readers[r], left - if Loads(a, r) then 1 else 0)
  {
    hide Left, Inv, Step;
    StepProgresses(cmp, head, st, a, st', r);
  }

  /** In every run, whatever the inserting thread and the other searches do meanwhile: a search that
      has made more loads than the levels below it and the nodes in the list together has returned,
      and what it returned is correct. */
  lemma SearchesEnd<K(!new), V>(cmp: (K, K) -> int, head: Node<K, V>, states: seq<State<K, V>>,
                                labels: seq<Label<K, V>>, r: nat, j: nat, k: nat)
    requires Run(cmp, head, states, labels) && j <= k < |states|
    requires r in states[j].readers && states[j].readers[r].Searching?
    requires forall i :: j <= i < k ==> !Restarts(labels[i], r)
    requires Count(labels, r, j, k) > states[j].readers[r].level + |ListAt(states[k], 0)|
    ensures r in states[k].readers && states[k].readers[r].Returned?
    ensures var s, s' := states[j].readers[r], states[k].readers[r];
            && s'.key == s.key && s'.seen == s.seen && Correct(states[k], s.key, s'.result, s.seen)
            && (s.key in s.seen ==> s'.result.To? && s'.result.node.entry == Entry(s.key, s.seen[s.key]))
  {
    hide Inv, ReaderInv, Within, SameSearch, Left, ListAt, Correct, Count, Step, Initial;
    RunProgresses(cmp, head, states, labels, r, j, k);
    ReaderOfRun(cmp, head, states, labels, k, r);
    hide Run;
    MustHaveReturned(cmp, head, states[j], states[k], states[j].readers[r], states[k].readers[r],
                     Count(labels, r, j, k));
  }

  lemma ReaderOfRun<K(!new), V>(cmp: (K, K) -> int, head: Node<K, V>, states: seq<State<K, V>>,
                                labels: seq<Label<K, V>>, k: nat, r: nat)
    requires Run(cmp, head, states, labels) && k < |states| && r in states[k].readers
    ensures ReaderInv(cmp, head, states[k], states[k].readers[r])
  {
    hide Run, WriterInv, ReaderInv;
    RunKeepsInv(cmp, head, states, labels, k);
  }

  lemma MustHaveReturned<K(!new), V>(cmp: (K, K) -> int, head: Node<K, V>, st: State<K, V>, st': State<K, V>,
                                     s: Reader<K, V>, s': Reader<K, V>, loads: nat)
    requires s.Searching? && ReaderInv(cmp, head, st', s') && SameSearch(s, s')
    requires Within(head, st', s', Left(head, st, s) - loads) && loads > s.level + |ListAt(st', 0)|
    ensures s'.Returned? && s'.key == s.key && s'.seen == s.seen && Correct(st', s.key, s'.result, s.seen)
    ensures s.key in s.seen ==> s'.result.To? && s'.result.node.entry == Entry(s.key, s.seen[s.key])
  {
    if s'.Searching? { RankBounded(cmp, head, st', s'); }
    hide ListAt, Visible, Rank;
  }

  lemma RankBounded<K(!new), V>(cmp: (K, K) -> int, head: Node<K, V>, st: State<K, V>, r: Reader<K, V>)
    requires r.Searching? && ReaderInv(cmp, head, st, r)
    ensures Rank(head, ListAt(st, 0), r.at) <= |ListAt(st, 0)|
  {
    if r.at != head {
      LowerList(st, r.at, r.level, 0);
      IndexIn(ListAt(st, 0), r.at);
    }
  }

  // ---------- the inserting thread ----------

  /** The steps that are left to an insertion. */
  function StepsLeft<K, V>(w: Writer<K, V>): int {
    match w
    case Idle => 0
    case Chosen(x, _) => 2 * x.height + 3
    case Raised(x, _) => 2 * x.height + 2
    case Busy(x, _, i, own) => 2 * (x.height - i) + 1 - if own then 1 else 0
  }

  lemma {:induction false} PredExists<T>(h: T -> nat, head: T, s: seq<T>, pos: nat, from: nat, i: nat) returns (p: T)
    requires from <= pos <= |s| && h(head) > i && Clear(h, s, from, pos, i)
    ensures IsPred(h, head, s, pos, p, i)
    decreases from
  {
    if from == 0 {
      p := head;
      assert At(head, s, -1) == head;
    } else if h(s[from - 1]) > i {
      p := s[from - 1];
      assert At(head, s, from - 1) == p;
    } else {
      p := PredExists(h, head, s, pos, from - 1, i);
    }
  }

  /** An insertion that has begun can always go on, and every step of it brings it nearer to its end. */
  lemma InsertionGoesOn<K(!new), V>(cmp: (K, K) -> int, head: Node<K, V>, st: State<K, V>)
    returns (a: Label<K, V>, st': State<K, V>)
    requires WriterInv(cmp, head, st) && !st.writer.Idle?
    ensures WriterStep(cmp, head, st, a, st') && StepsLeft(st'.writer) == StepsLeft(st.writer) - 1 >= 0
  {
    hide TotalOrder, Ordered, AllLevels, Table, Split, Inserted, IsPred;
    match st.writer
    case Chosen(x, pos) =>
      a := Raise;
      st' := st.(max := if x.height > st.max then x.height else st.max, writer := Raised(x, pos));
    case Raised(x, pos) =>
      a := Allocate;
      st' := st.(mem := st.mem[x := seq(x.height, _ => Unset)], writer := Busy(x, pos, 0, false));
    case Busy(x, pos, i, own) =>
      if i == x.height {
        a := Finish;
        st' := st.(nodes := Inserted(st.nodes, pos, x), writer := Idle);
      } else {
        a, st' := LevelGoesOn(cmp, head, st);
      }
  }

  lemma LevelGoesOn<K(!new), V>(cmp: (K, K) -> int, head: Node<K, V>, st: State<K, V>)
    returns (a: Label<K, V>, st': State<K, V>)
    requires st.writer.Busy? && st.writer.i < st.writer.x.height
    requires Linking(st.mem, Height, head, st.nodes, st.writer.pos, st.writer.x, st.writer.i)
    ensures WriterStep(cmp, head, st, a, st')
    ensures StepsLeft(st'.writer) == StepsLeft(st.writer) - 1
  {
    var w := st.writer;
    NotYetIn(st.mem, Height, head, st.nodes, w.pos, w.x);
    var p := PredExists(Height, head, st.nodes, w.pos, w.pos, w.i);
    LinkSlots(st.mem, Height, head, st.nodes, w.pos, w.x, p, w.i);
    hide Linking, IsPred;
    if w.own {
      a := Publish(p);
      st' := st.(mem := st.mem[p := st.mem[p][w.i := To(w.x)]], writer := w.(i := w.i + 1, own := false));
    } else {
      a := WriteOwn(p);
      st' := st.(mem := st.mem[w.x := st.mem[w.x][w.i := st.mem[p][w.i]]], writer := w.(own := true));
    }
  }

  /** Every step of the inserting thread but the one that begins an insertion leaves it one step less. */
  lemma InsertionAdvances<K(!new), V>(cmp: (K, K) -> int, head: Node<K, V>, st: State<K, V>, a: Label<K, V>,
                                      st': State<K, V>)
    requires WriterStep(cmp, head, st, a, st') && !a.Choose?
    ensures StepsLeft(st'.writer) == StepsLeft(st.writer) - 1
  {
    hide Split, IsPred, Wrote, Inserted;
  }
}
