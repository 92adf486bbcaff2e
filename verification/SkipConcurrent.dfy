/** One inserting thread and any number of searching threads on one skip list
    (ibdb/src/base/skiplist.h, lines 368-415), each step one load or one store.

    Nodes serve as addresses with constant contents; their links live in the shared memory of
    the state. */
module SkipConcurrent {
  import opened SkipLinks
  import opened SkipLists

  /** The inserting thread: it has found where its node belongs and how tall it is, has raised
      the list's height, or is linking the node at level `i`. `own` says that the node's own
      link at that level has been written. */
  datatype Writer<K, V> =
    | Idle
    | Chosen(x: Node<K, V>, pos: nat)
    | Raised(x: Node<K, V>, pos: nat)
    | Busy(x: Node<K, V>, pos: nat, i: nat, own: bool)

  /** A searching thread; `seen` is what the list held when it began. */
  datatype Reader<K, V> =
    | Searching(key: K, at: Node<K, V>, level: nat, seen: map<K, V>)
    | Returned(key: K, result: Link<Node<K, V>>, seen: map<K, V>)
    | Crashed

  datatype State<K, V> = State(
    mem: Mem<Node<K, V>>,
    nodes: seq<Node<K, V>>,
    max: nat,
    writer: Writer<K, V>,
    readers: map<nat, Reader<K, V>>)

  datatype Label<K, V> =
    | Choose(x: Node<K, V>, pos: nat)
    | Raise
    | Allocate
    | WriteOwn(p: Node<K, V>)
    | Publish(p: Node<K, V>)
    | Finish
    | BeginFind(r: nat, key: K)
    | ReadLink(r: nat)

  /** The list that level `l` links at this moment. */
  ghost function ListAt<K, V>(st: State<K, V>, l: nat): seq<Node<K, V>> {
    if st.writer.Busy? && l < st.writer.i && st.writer.pos <= |st.nodes|
    then Inserted(st.nodes, st.writer.pos, st.writer.x) else st.nodes
  }

  /** The inserted keys: a node is in the list from the moment level 0 links it. */
  ghost function Visible<K, V>(st: State<K, V>): map<K, V> {
    Table(ListAt(st, 0))
  }

  ghost predicate Initial<K(!new), V>(cmp: (K, K) -> int, head: Node<K, V>, st: State<K, V>) {
    && TotalOrder(cmp) && head.height == MAX_HEIGHT
    && st == State(map[head := seq(MAX_HEIGHT, _ => Null)], [], 1, Idle, map[])
  }

  // ---------- steps ----------

  ghost predicate WriterStep<K(!new), V>(cmp: (K, K) -> int, head: Node<K, V>, st: State<K, V>, a: Label<K, V>,
                                         st': State<K, V>) {
    match a
    case Choose(x, pos) =>
      && st.writer.Idle? && x !in st.mem && x.entry.Entry? && x.entry.key !in Table(st.nodes)
      && 1 <= x.height <= MAX_HEIGHT && Split(st.nodes, Below(cmp, x.entry.key), pos)
      && st' == st.(writer := Chosen(x, pos))
    case Raise =>
      && st.writer.Chosen?
      && st' == st.(max := if st.writer.x.height > st.max then st.writer.x.height else st.max,
                    writer := Raised(st.writer.x, st.writer.pos))
    case Allocate =>
      && st.writer.Raised?
      && st' == st.(mem := st.mem[st.writer.x := seq(st.writer.x.height, _ => Unset)],
                    writer := Busy(st.writer.x, st.writer.pos, 0, false))
    case WriteOwn(p) =>
      && st.writer.Busy? && !st.writer.own && st.writer.i < st.writer.x.height
      && IsPred(Height, head, st.nodes, st.writer.pos, p, st.writer.i)
      && p in st.mem && st.writer.i < |st.mem[p]|
      && Wrote(st.mem, st'.mem, st.writer.x, st.writer.i, st.mem[p][st.writer.i])
      && st' == st.(mem := st'.mem, writer := st.writer.(own := true))
    case Publish(p) =>
      && st.writer.Busy? && st.writer.own
      && IsPred(Height, head, st.nodes, st.writer.pos, p, st.writer.i)
      && Wrote(st.mem, st'.mem, p, st.writer.i, To(st.writer.x))
      && st' == st.(mem := st'.mem, writer := st.writer.(i := st.writer.i + 1, own := false))
    case Finish =>
      && st.writer.Busy? && st.writer.i == st.writer.x.height && !st.writer.own && st.writer.pos <= |st.nodes|
      && st' == st.(nodes := Inserted(st.nodes, st.writer.pos, st.writer.x), writer := Idle)
    case _ => false
  }

  /** One load by a searching thread. Following a link that was never written is a crash. */
  ghost function AfterLoad<K, V>(cmp: (K, K) -> int, mem: Mem<Node<K, V>>, r: Reader<K, V>): Reader<K, V>
    requires r.Searching?
  {
    if r.at !in mem || r.level >= |mem[r.at]| || mem[r.at][r.level].Unset? then Crashed
    else
      var next := mem[r.at][r.level];
      if next.To? && IsBelow(cmp, r.key, next.node) then r.(at := next.node)
      else if r.level > 0 then r.(level := r.level - 1)
      else if next.To? && next.node.entry.Entry? && cmp(next.node.entry.key, r.key) == 0 then
        Returned(r.key, next, r.seen)
      else Returned(r.key, Null, r.seen)
  }

  ghost predicate ReaderStep<K, V>(cmp: (K, K) -> int, head: Node<K, V>, st: State<K, V>, a: Label<K, V>,
                                   st': State<K, V>) {
    match a
    case BeginFind(r, key) =>
      && (r !in st.readers || !st.readers[r].Searching?) && st.max > 0
      && st' == st.(readers := st.readers[r := Searching(key, head, st.max - 1, Visible(st))])
    case ReadLink(r) =>
      && r in st.readers && st.readers[r].Searching?
      && st' == st.(readers := st.readers[r := AfterLoad(cmp, st.mem, st.readers[r])])
    case _ => false
  }

  ghost predicate Step<K(!new), V>(cmp: (K, K) -> int, head: Node<K, V>, st: State<K, V>, a: Label<K, V>,
                                   st': State<K, V>) {
    WriterStep(cmp, head, st, a, st') || ReaderStep(cmp, head, st, a, st')
  }

  /** A run: `labels[k]` leads from `states[k]` to `states[k + 1]`. */
  ghost predicate Run<K(!new), V>(cmp: (K, K) -> int, head: Node<K, V>, states: seq<State<K, V>>,
                                  labels: seq<Label<K, V>>) {
    && |states| == |labels| + 1 && Initial(cmp, head, states[0])
    && forall k :: 0 <= k < |labels| ==> Step(cmp, head, states[k], labels[k], states[k + 1])
  }

  // ---------- invariant ----------

  /** The node that is being inserted belongs at its place. */
  ghost predicate Belongs<K, V>(cmp: (K, K) -> int, st: State<K, V>, x: Node<K, V>, pos: nat) {
    && x.entry.Entry? && x.entry.key !in Table(st.nodes) && 1 <= x.height <= MAX_HEIGHT
    && pos <= |st.nodes| && Split(st.nodes, Below(cmp, x.entry.key), pos)
  }

  ghost predicate WriterInv<K(!new), V>(cmp: (K, K) -> int, head: Node<K, V>, st: State<K, V>) {
    && TotalOrder(cmp) && Ordered(cmp, st.nodes) && 1 <= st.max <= MAX_HEIGHT && NoneTaller(st)
    && match st.writer
       case Idle => AllLevels(st.mem, Height, head, st.nodes)
       case Chosen(x, pos) => AllLevels(st.mem, Height, head, st.nodes) && Belongs(cmp, st, x, pos) && x !in st.mem
       case Raised(x, pos) => AllLevels(st.mem, Height, head, st.nodes) && Belongs(cmp, st, x, pos) && x !in st.mem
       case Busy(x, pos, i, own) =>
         && Belongs(cmp, st, x, pos) && i <= x.height
         && Linking(st.mem, Height, head, st.nodes, pos, x, i)
         && (own ==> i < x.height && x in st.mem && i < |st.mem[x]|)
         && (own ==> st.mem[x][i] == Succ(Height, Inserted(st.nodes, pos, x), pos + 1, i))
  }

  /** Searches start at the level of the tallest node, or above it. */
  ghost predicate NoneTaller<K, V>(st: State<K, V>) {
    && (forall n :: n in st.nodes ==> n.height <= st.max)
    && (st.writer.Raised? || st.writer.Busy? ==> st.writer.x.height <= st.max)
  }

  ghost predicate Stands<K, V>(cmp: (K, K) -> int, head: Node<K, V>, st: State<K, V>, key: K, n: Node<K, V>,
                               level: nat) {
    && level < MAX_HEIGHT && n.height > level
    && (n == head || (n in ListAt(st, level) && IsBelow(cmp, key, n)))
  }

  ghost predicate ReaderInv<K, V>(cmp: (K, K) -> int, head: Node<K, V>, st: State<K, V>, r: Reader<K, V>) {
    match r
    case Searching(key, n, level, seen) => Stands(cmp, head, st, key, n, level) && Within(seen, Visible(st))
    case Returned(key, result, seen) => Correct(st, key, result, seen)
    case Crashed => false
  }

  ghost predicate Within<K, V>(m: map<K, V>, m': map<K, V>) {
    forall k :: k in m ==> k in m' && m'[k] == m[k]
  }

  /** A search finds what had been inserted when it began, and only what has been inserted. */
  ghost predicate Correct<K, V>(st: State<K, V>, key: K, result: Link<Node<K, V>>, seen: map<K, V>) {
    && (key in seen ==> result.To? && result.node.entry == Entry(key, seen[key]))
    && (result.To? ==> key in Visible(st) && result.node.entry == Entry(key, Visible(st)[key]))
  }

  ghost predicate Inv<K(!new), V>(cmp: (K, K) -> int, head: Node<K, V>, st: State<K, V>) {
    WriterInv(cmp, head, st) && forall r :: r in st.readers ==> ReaderInv(cmp, head, st, st.readers[r])
  }

  // ---------- one load ----------

  /** What a searching thread needs to know about the level it is on. */
  lemma LevelFacts<K(!new), V>(cmp: (K, K) -> int, head: Node<K, V>, st: State<K, V>, l: nat)
    requires WriterInv(cmp, head, st) && l < MAX_HEIGHT
    ensures var s := ListAt(st, l);
            && Shaped(st.mem, Height, head, s) && LevelOk(st.mem, Height, head, s, l)
            && Ordered(cmp, s) && TotalOrder(cmp)
  {
    hide TotalOrder, Ordered, Shaped, LevelOk, Split, Table;
    if st.writer.Busy? {
      OrderedInserted(cmp, st.nodes, st.writer.pos, st.writer.x);
    }
  }

  /** A taller level links no node that a lower one does not. */
  lemma LowerList<K, V>(st: State<K, V>, n: Node<K, V>, l: nat, l': nat)
    requires n in ListAt(st, l) && l' <= l
    ensures n in ListAt(st, l')
  {
    if st.writer.Busy? && st.writer.pos <= |st.nodes| && n in st.nodes {
      Superlist(st.nodes, st.writer.pos, st.writer.x, n);
    }
  }

  lemma Superlist<T>(s: seq<T>, pos: nat, x: T, n: T)
    requires pos <= |s| && n in s
    ensures n in Inserted(s, pos, x)
  {
    var t :| 0 <= t < |s| && s[t] == n;
    InsertedAt(s, pos, x);
    assert Inserted(s, pos, x)[if t < pos then t else t + 1] == n;
  }

  /** What a load finds at level `level` of a list `s`, behind a node that is below the key. */
  lemma LoadFacts<K(!new), V>(cmp: (K, K) -> int, head: Node<K, V>, mem: Mem<Node<K, V>>, s: seq<Node<K, V>>,
                              key: K, n: Node<K, V>, level: nat)
    requires TotalOrder(cmp) && Ordered(cmp, s) && level < MAX_HEIGHT
    requires Shaped(mem, Height, head, s) && LevelOk(mem, Height, head, s, level)
    requires n.height > level && (n == head || (n in s && IsBelow(cmp, key, n)))
    ensures n in mem && level < |mem[n]| && !mem[n][level].Unset?
    ensures var next := mem[n][level];
            if next.To? && IsBelow(cmp, key, next.node) then next.node in s && next.node.height > level
            else level == 0 ==>
              if key in Table(s) then next.To? && next.node.entry == Entry(key, Table(s)[key])
              else !(next.To? && next.node.entry.Entry? && cmp(next.node.entry.key, key) == 0)
    ensures cmp(key, key) == 0
  {
    Compare(cmp, key, key);
    hide TotalOrder;
    var pos := FindSplit(cmp, key, s);
    var ix := if n == head then -1 else var t :| 0 <= t < |s| && s[t] == n; t;
    assert ix >= 0 ==> Below(cmp, key)(s[ix]);
    var t := SearchStep(mem, Height, head, s, Below(cmp, key), pos, ix, level);
    KeyAtSplit(cmp, key, s, pos);
    hide Shaped, LevelOk, Clear, Table, Split;
    if pos < |s| { Compare(cmp, s[pos].entry.key, key); }
  }

  /** A search that has gone down a level stands where it stood. */
  lemma StandsLower<K, V>(cmp: (K, K) -> int, head: Node<K, V>, st: State<K, V>, key: K, n: Node<K, V>, level: nat)
    requires Stands(cmp, head, st, key, n, level) && level > 0
    ensures Stands(cmp, head, st, key, n, level - 1)
  {
    hide ListAt;
    if n != head { LowerList(st, n, level, level - 1); }
  }

  /** What a search returns at level 0 is correct. */
  lemma ReturnIsCorrect<K, V>(st: State<K, V>, key: K, next: Link<Node<K, V>>, result: Link<Node<K, V>>,
                              seen: map<K, V>)
    requires Within(seen, Visible(st))
    requires if key in Visible(st) then next.To? && next.node.entry == Entry(key, Visible(st)[key]) && result == next
             else result == Null
    ensures Correct(st, key, result, seen)
  {
    hide Visible;
  }

  /** The three ways in which a load goes on. */
  lemma LoadKeeps<K(!new), V>(cmp: (K, K) -> int, head: Node<K, V>, st: State<K, V>, r: Reader<K, V>)
    requires WriterInv(cmp, head, st) && r.Searching? && ReaderInv(cmp, head, st, r)
    ensures ReaderInv(cmp, head, st, AfterLoad(cmp, st.mem, r))
  {
    FactsHere(cmp, head, st, r.key, r.at, r.level);
    hide WriterInv, Within, Correct, Stands, Visible, IsBelow;
    var next := st.mem[r.at][r.level];
    if next.To? && IsBelow(cmp, r.key, next.node) {
    } else if r.level > 0 {
      StandsLower(cmp, head, st, r.key, r.at, r.level);
    } else {
      ReturnIsCorrect(st, r.key, next, AfterLoad(cmp, st.mem, r).result, r.seen);
    }
  }

  /** What a load finds where a search stands. */
  lemma FactsHere<K(!new), V>(cmp: (K, K) -> int, head: Node<K, V>, st: State<K, V>, key: K, n: Node<K, V>, level: nat)
    requires WriterInv(cmp, head, st) && Stands(cmp, head, st, key, n, level)
    ensures n in st.mem && level < |st.mem[n]| && !st.mem[n][level].Unset?
    ensures var next := st.mem[n][level];
            if next.To? && IsBelow(cmp, key, next.node) then Stands(cmp, head, st, key, next.node, level)
            else level == 0 ==>
              if key in Visible(st) then next.To? && next.node.entry == Entry(key, Visible(st)[key])
              else !(next.To? && next.node.entry.Entry? && cmp(next.node.entry.key, key) == 0)
    ensures cmp(key, key) == 0
  {
    LevelFacts(cmp, head, st, level);
    hide TotalOrder, Ordered, Shaped, LevelOk, Table, ListAt, WriterInv, IsBelow;
    LoadFacts(cmp, head, st.mem, ListAt(st, level), key, n, level);
  }

  // ---------- the inserting thread ----------

  lemma WriterKeeps<K(!new), V>(cmp: (K, K) -> int, head: Node<K, V>, st: State<K, V>, a: Label<K, V>, st': State<K, V>)
    requires WriterInv(cmp, head, st) && WriterStep(cmp, head, st, a, st')
    ensures WriterInv(cmp, head, st')
  {
    NoneGetsTaller(cmp, head, st, a, st');
    hide TotalOrder, Ordered, AllLevels, Table, Split, Linking, Wrote, IsPred, Inserted, NoneTaller;
    if st.writer.Busy? {
      hide WriterStep;
      LinkingKeeps(cmp, head, st, a, st');
    } else if a.Choose? {
      SplitBound(st.nodes, Below(cmp, a.x.entry.key), a.pos);
    } else if a.Allocate? {
      StartLinking(st.mem, Height, head, st.nodes, st.writer.pos, st.writer.x);
    }
  }

  /** The steps that link the new node. */
  lemma LinkingKeeps<K(!new), V>(cmp: (K, K) -> int, head: Node<K, V>, st: State<K, V>, a: Label<K, V>,
                                 st': State<K, V>)
    requires WriterInv(cmp, head, st) && WriterStep(cmp, head, st, a, st') && st.writer.Busy? && NoneTaller(st')
    ensures WriterInv(cmp, head, st')
  {
    hide TotalOrder, Ordered, AllLevels, Table, Split, Linking, Wrote, IsPred, Inserted, NoneTaller;
    match a
    case WriteOwn(p) => OwnKeeps(head, st, p, st'.mem);
    case Publish(p) => PublishKeeps(head, st, p, st'.mem);
    case Finish =>
      FinishLinking(st.mem, Height, head, st.nodes, st.writer.pos, st.writer.x);
      OrderedInserted(cmp, st.nodes, st.writer.pos, st.writer.x);
    case _ =>
  }

  lemma NoneGetsTaller<K(!new), V>(cmp: (K, K) -> int, head: Node<K, V>, st: State<K, V>, a: Label<K, V>,
                                   st': State<K, V>)
    requires NoneTaller(st) && WriterStep(cmp, head, st, a, st')
    ensures NoneTaller(st')
  {
    hide Split, IsPred, Wrote;
  }

  lemma SplitBound<T>(s: seq<T>, below: T -> bool, pos: nat)
    requires Split(s, below, pos)
    ensures pos <= |s|
  {
  }

  lemma OwnKeeps<K, V>(head: Node<K, V>, st: State<K, V>, p: Node<K, V>, mem: Mem<Node<K, V>>)
    requires st.writer.Busy? && st.writer.i < st.writer.x.height
    requires var w := st.writer;
             && Linking(st.mem, Height, head, st.nodes, w.pos, w.x, w.i)
             && IsPred(Height, head, st.nodes, w.pos, p, w.i)
             && p in st.mem && w.i < |st.mem[p]| && Wrote(st.mem, mem, w.x, w.i, st.mem[p][w.i])
    ensures var w := st.writer;
            && Linking(mem, Height, head, st.nodes, w.pos, w.x, w.i)
            && w.x in mem && w.i < |mem[w.x]|
            && mem[w.x][w.i] == Succ(Height, Inserted(st.nodes, w.pos, w.x), w.pos + 1, w.i)
  {
    var w := st.writer;
    var j :| -1 <= j < w.pos && p == At(head, st.nodes, j) && Height(p) > w.i
             && Clear(Height, st.nodes, j + 1, w.pos, w.i);
    OwnLinkKeeps(st.mem, mem, Height, head, st.nodes, w.pos, w.x, w.i, st.mem[p][w.i]);
    PredecessorLink(st.mem, Height, head, st.nodes, w.pos, w.x, j, w.i);
  }

  lemma PublishKeeps<K, V>(head: Node<K, V>, st: State<K, V>, p: Node<K, V>, mem: Mem<Node<K, V>>)
    requires st.writer.Busy? && st.writer.i < st.writer.x.height
    requires var w := st.writer;
             && Linking(st.mem, Height, head, st.nodes, w.pos, w.x, w.i)
             && IsPred(Height, head, st.nodes, w.pos, p, w.i)
             && w.x in st.mem && w.i < |st.mem[w.x]|
             && st.mem[w.x][w.i] == Succ(Height, Inserted(st.nodes, w.pos, w.x), w.pos + 1, w.i)
             && Wrote(st.mem, mem, p, w.i, To(w.x))
    ensures Linking(mem, Height, head, st.nodes, st.writer.pos, st.writer.x, st.writer.i + 1)
  {
    var w := st.writer;
    var j :| -1 <= j < w.pos && p == At(head, st.nodes, j) && Height(p) > w.i
             && Clear(Height, st.nodes, j + 1, w.pos, w.i);
    PublishLinks(st.mem, mem, Height, head, st.nodes, w.pos, w.x, j, w.i);
  }

  // ---------- searching threads while the list grows ----------

  /** No step of the inserting thread takes anything out of any level. */
  lemma ListsGrow<K(!new), V>(cmp: (K, K) -> int, head: Node<K, V>, st: State<K, V>, a: Label<K, V>, st': State<K, V>,
                              l: nat)
    requires WriterInv(cmp, head, st) && WriterStep(cmp, head, st, a, st')
    ensures forall n :: n in ListAt(st, l) ==> n in ListAt(st', l)
  {
    hide TotalOrder, Ordered, AllLevels, Table, Split, Linking, Wrote, IsPred, Inserted;
    if st.writer.Busy? {
      forall n | n in st.nodes ensures n in Inserted(st.nodes, st.writer.pos, st.writer.x) {
        Superlist(st.nodes, st.writer.pos, st.writer.x, n);
      }
    }
  }

  lemma VisibleGrows<K(!new), V>(cmp: (K, K) -> int, head: Node<K, V>, st: State<K, V>, a: Label<K, V>,
                                 st': State<K, V>)
    requires WriterInv(cmp, head, st) && WriterStep(cmp, head, st, a, st')
    ensures Within(Visible(st), Visible(st'))
  {
    hide TotalOrder, Ordered, AllLevels, Table, Split, Linking, Wrote, IsPred, Inserted;
    if st.writer.Busy? {
      TableInserted(st.nodes, st.writer.pos, st.writer.x);
    }
  }

  lemma WithinTrans<K, V>(a: map<K, V>, b: map<K, V>, c: map<K, V>)
    requires Within(a, b) && Within(b, c)
    ensures Within(a, c)
  {
  }

  lemma CorrectStays<K, V>(st: State<K, V>, st': State<K, V>, key: K, result: Link<Node<K, V>>, seen: map<K, V>)
    requires Correct(st, key, result, seen) && Within(Visible(st), Visible(st'))
    ensures Correct(st', key, result, seen)
  {
    hide Visible;
  }

  lemma StandsStill<K(!new), V>(cmp: (K, K) -> int, head: Node<K, V>, st: State<K, V>, a: Label<K, V>,
                                st': State<K, V>, r: Reader<K, V>)
    requires WriterInv(cmp, head, st) && WriterStep(cmp, head, st, a, st') && ReaderInv(cmp, head, st, r)
    ensures ReaderInv(cmp, head, st', r)
  {
    VisibleGrows(cmp, head, st, a, st');
    hide WriterInv, WriterStep, Visible, ListAt, Within, Correct;
    if r.Searching? {
      ListsGrow(cmp, head, st, a, st', r.level);
      WithinTrans(r.seen, Visible(st), Visible(st'));
    } else if r.Returned? {
      CorrectStays(st, st', r.key, r.result, r.seen);
    }
  }

  lemma StepKeepsInv<K(!new), V>(cmp: (K, K) -> int, head: Node<K, V>, st: State<K, V>, a: Label<K, V>,
                                 st': State<K, V>)
    requires head.height == MAX_HEIGHT
    requires Inv(cmp, head, st) && Step(cmp, head, st, a, st')
    ensures Inv(cmp, head, st')
  {
    if WriterStep(cmp, head, st, a, st') {
      WriterKeeps(cmp, head, st, a, st');
      assert st'.readers == st.readers;
      hide WriterInv, WriterStep, ReaderInv;
      forall r | r in st'.readers ensures ReaderInv(cmp, head, st', st'.readers[r]) {
        StandsStill(cmp, head, st, a, st', st.readers[r]);
      }
    } else {
      ReadKeepsInv(cmp, head, st, a, st');
    }
  }

  lemma ReadKeepsInv<K(!new), V>(cmp: (K, K) -> int, head: Node<K, V>, st: State<K, V>, a: Label<K, V>,
                                 st': State<K, V>)
    requires head.height == MAX_HEIGHT
    requires Inv(cmp, head, st) && ReaderStep(cmp, head, st, a, st')
    ensures Inv(cmp, head, st')
  {
    SameList(cmp, head, st, st');
    assert st.max <= MAX_HEIGHT;
    hide WriterInv, AfterLoad, Visible, ListAt;
    if a.ReadLink? {
      LoadKeeps(cmp, head, st, st.readers[a.r]);
    }
  }

  lemma SameList<K(!new), V>(cmp: (K, K) -> int, head: Node<K, V>, st: State<K, V>, st': State<K, V>)
    requires WriterInv(cmp, head, st) && st' == st.(readers := st'.readers)
    ensures WriterInv(cmp, head, st') && Visible(st') == Visible(st)
    ensures forall l: nat :: ListAt(st', l) == ListAt(st, l)
  {
    hide TotalOrder, Ordered, AllLevels, Table, Split, Linking, Inserted;
  }

  lemma InitialInv<K(!new), V>(cmp: (K, K) -> int, head: Node<K, V>, st: State<K, V>)
    requires Initial(cmp, head, st)
    ensures Inv(cmp, head, st)
  {
    hide TotalOrder;
  }

  lemma {:induction false} RunKeepsInv<K(!new), V>(cmp: (K, K) -> int, head: Node<K, V>, states: seq<State<K, V>>,
                                                   labels: seq<Label<K, V>>, k: nat)
    requires Run(cmp, head, states, labels) && k < |states|
    ensures Inv(cmp, head, states[k])
  {
    hide Inv, Step;
    InitialInv(cmp, head, states[0]);
    if k > 0 {
      RunKeepsInv(cmp, head, states, labels, k - 1);
      assert Step(cmp, head, states[k - 1], labels[k - 1], states[k]);
      HeadHeight(cmp, head, states[0]);
      hide Run;
      StepKeepsInv(cmp, head, states[k - 1], labels[k - 1], states[k]);
    }
  }

  lemma HeadHeight<K(!new), V>(cmp: (K, K) -> int, head: Node<K, V>, st: State<K, V>)
    requires Initial(cmp, head, st)
    ensures head.height == MAX_HEIGHT
  {
  }

  /** In every run, no search ever follows a link that has not been written, and a search that
      has returned found every key that was inserted before it began, with its value, and
      returned nothing that had not been inserted. */
  lemma SearchesAreCorrect<K(!new), V>(cmp: (K, K) -> int, head: Node<K, V>, states: seq<State<K, V>>,
                                       labels: seq<Label<K, V>>, k: nat, r: nat)
    requires Run(cmp, head, states, labels) && k < |states| && r in states[k].readers
    ensures match states[k].readers[r]
            case Crashed => false
            case Returned(key, result, seen) => Correct(states[k], key, result, seen)
            case Searching(key, n, level, _) =>
              n in states[k].mem && level < |states[k].mem[n]| && !states[k].mem[n][level].Unset?
  {
    RunKeepsInv(cmp, head, states, labels, k);
    hide Run, WriterInv;
    var st := states[k];
    assert ReaderInv(cmp, head, st, st.readers[r]);
    if st.readers[r].Searching? {
      var key, n, level := st.readers[r].key, st.readers[r].at, st.readers[r].level;
      FactsHere(cmp, head, st, key, n, level);
    }
  }
}
