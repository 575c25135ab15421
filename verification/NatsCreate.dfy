/** Concurrent creation of one store on JetStream: any number of `create` and
    `complete_creation` calls interleave over two streams
    (crates/pardosa-nats/src/adapter.rs:1316-1642, 1888-2040).

    Creating a stream that already exists with the same configuration succeeds, so only the
    expected sequence carried by each publish keeps the callers apart. */
module NatsCreate {
  /** What is published, in order: three records to the meta stream, one to the data stream. */
  datatype Kind = MetaHeader | ClaimFrame | DescriptorFrame | DataHeader

  datatype Msg = Msg(caller: nat, kind: Kind)

  function Expected(k: Kind): nat {
    match k
    case MetaHeader => 0
    case ClaimFrame => 1
    case DescriptorFrame => 2
    case DataHeader => 0
  }

  /** Where a caller stands. `Failed` covers every error return. */
  datatype Pc =
    | Start
    | SawMeta(present: bool)
    | Admitted
    | NeedsData
    | Ready(kind: Kind)
    | Awaiting(kind: Kind)
    | HasSession
    | Failed

  datatype Caller = Caller(creates: bool, pc: Pc)

  datatype State = State(
    metaExists: bool, dataExists: bool, meta: seq<Msg>, data: seq<Msg>, net: set<Msg>, callers: map<nat, Caller>)

  datatype Label =
    | Call(c: nat, creates: bool)
    | LookAtMeta(c: nat)
    | LookAtData(c: nat)
    | EnsureMetaStream(c: nat)
    | ReadMeta(c: nat)
    | EnsureDataStream(c: nat)
    | Publish(c: nat)
    | PublishFails(c: nat, escaped: bool)
    | Deliver(m: Msg)
    | Ack(c: nat)
    | GiveUp(c: nat)

  function Log(st: State, k: Kind): seq<Msg> {
    if k == DataHeader then st.data else st.meta
  }

  predicate At(st: State, c: nat, pc: Pc) {
    c in st.callers && st.callers[c].pc == pc
  }

  predicate Enabled(st: State, l: Label) {
    match l
    case Call(c, _) => c !in st.callers
    case LookAtMeta(c) => At(st, c, Start)
    // `create` goes on when it saw neither stream, completion when it saw only the meta stream.
    case LookAtData(c) =>
      c in st.callers && st.callers[c].pc.SawMeta?
    case EnsureMetaStream(c) => At(st, c, Admitted) && st.callers[c].creates
    // Completion needs a recorded claim and descriptor.
    case ReadMeta(c) => At(st, c, Admitted) && !st.callers[c].creates && |st.meta| >= 3
    case EnsureDataStream(c) => At(st, c, NeedsData)
    case Publish(c) => c in st.callers && st.callers[c].pc.Ready?
    case PublishFails(c, _) => c in st.callers && st.callers[c].pc.Ready?
    case Deliver(m) =>
      && m in st.net && |Log(st, m.kind)| == Expected(m.kind)
      && (if m.kind == DataHeader then st.dataExists else st.metaExists)
    case Ack(c) =>
      && c in st.callers && st.callers[c].pc.Awaiting?
      && var k := st.callers[c].pc.kind;
         Expected(k) < |Log(st, k)| && Log(st, k)[Expected(k)] == Msg(c, k)
    case GiveUp(c) => c in st.callers && !st.callers[c].pc.HasSession?
  }

  function Goto(st: State, c: nat, pc: Pc): State
    requires c in st.callers
  {
    st.(callers := st.callers[c := st.callers[c].(pc := pc)])
  }

  /** What comes after the acknowledgement of a publish. */
  function AfterAck(k: Kind): Pc {
    match k
    case MetaHeader => Ready(ClaimFrame)
    case ClaimFrame => Ready(DescriptorFrame)
    case DescriptorFrame => NeedsData
    case DataHeader => HasSession
  }

  function Apply(st: State, l: Label): State
    requires Enabled(st, l)
  {
    match l
    case Call(c, creates) => st.(callers := st.callers[c := Caller(creates, Start)])
    case LookAtMeta(c) => Goto(st, c, SawMeta(st.metaExists))
    case LookAtData(c) =>
      var x := st.callers[c];
      Goto(st, c, if !st.dataExists && x.pc.present != x.creates then Admitted else Failed)
    case EnsureMetaStream(c) => Goto(st, c, Ready(MetaHeader)).(metaExists := true)
    case ReadMeta(c) => Goto(st, c, NeedsData)
    case EnsureDataStream(c) => Goto(st, c, Ready(DataHeader)).(dataExists := true)
    case Publish(c) =>
      var k := st.callers[c].pc.kind;
      Goto(st, c, Awaiting(k)).(net := st.net + {Msg(c, k)})
    case PublishFails(c, escaped) =>
      var k := st.callers[c].pc.kind;
      Goto(st, c, Failed).(net := if escaped then st.net + {Msg(c, k)} else st.net)
    case Deliver(m) => if m.kind == DataHeader then st.(data := st.data + [m]) else st.(meta := st.meta + [m])
    case Ack(c) => Goto(st, c, AfterAck(st.callers[c].pc.kind))
    case GiveUp(c) => Goto(st, c, Failed)
  }

  predicate Init(st: State) {
    !st.metaExists && !st.dataExists && st.meta == [] && st.data == [] && st.net == {} && st.callers == map[]
  }

  predicate CanRun(st: State, ls: seq<Label>)
    decreases |ls|
  {
    ls != [] ==> Enabled(st, ls[0]) && CanRun(Apply(st, ls[0]), ls[1..])
  }

  function Run(st: State, ls: seq<Label>): State
    requires CanRun(st, ls)
    decreases |ls|
  {
    if ls == [] then st else Run(Apply(st, ls[0]), ls[1..])
  }

  // ---- Safety ----

  /** The streams hold what must precede `k`: for a meta record its predecessor, published by
      `c` itself; for the data header all three meta records. */
  predicate Leads(st: State, c: nat, k: Kind) {
    match k
    case MetaHeader => true
    case ClaimFrame => |st.meta| >= 1 && st.meta[0] == Msg(c, MetaHeader)
    case DescriptorFrame => |st.meta| >= 2 && st.meta[1] == Msg(c, ClaimFrame)
    case DataHeader => |st.meta| == 3
  }

  /** The meta header of a creator that stands here has been acknowledged. */
  predicate PastMetaHeader(x: Caller) {
    x.creates && match x.pc
                 case Ready(k) => k != MetaHeader
                 case Awaiting(k) => k != MetaHeader
                 case NeedsData => true
                 case HasSession => true
                 case _ => false
  }

  predicate OwnsMeta(st: State, c: nat) {
    |st.meta| >= 1 && st.meta[0].caller == c
  }

  predicate CallerOk(st: State, c: nat)
    requires c in st.callers
  {
    && (PastMetaHeader(st.callers[c]) ==> OwnsMeta(st, c))
    && match st.callers[c].pc
       case Ready(k) => Leads(st, c, k)
       case Awaiting(k) => Leads(st, c, k)
       case NeedsData => |st.meta| == 3
       case HasSession => |st.meta| == 3 && st.data == [Msg(c, DataHeader)]
       case _ => true
  }

  /** The records in each stream are the expected kinds in order, the meta records all come
      from one caller, and the data header comes only after all three of them. */
  predicate LogsOk(st: State) {
    && |st.meta| <= 3 && |st.data| <= 1
    && (|st.meta| >= 1 ==> st.meta[0] == Msg(st.meta[0].caller, MetaHeader))
    && (|st.meta| >= 2 ==> st.meta[1] == Msg(st.meta[0].caller, ClaimFrame))
    && (|st.meta| >= 3 ==> st.meta[2] == Msg(st.meta[0].caller, DescriptorFrame))
    && (|st.data| >= 1 ==> st.data[0].kind == DataHeader && |st.meta| == 3)
  }

  predicate Inv(st: State) {
    && LogsOk(st)
    && (forall c | c in st.callers :: CallerOk(st, c))
    && (forall m | m in st.net :: Leads(st, m.caller, m.kind))
  }

  /** What a step of one caller that publishes at most what it is ready for must show. */
  lemma LocalKeepsInv(st: State, st': State, c: nat)
    requires Inv(st) && st'.meta == st.meta && st'.data == st.data
    requires c in st'.callers && st'.callers == st.callers[c := st'.callers[c]] && CallerOk(st', c)
    requires forall m | m in st'.net :: m in st.net || (m.caller == c && Leads(st, c, m.kind))
    ensures Inv(st')
  {
    forall d | d in st'.callers ensures CallerOk(st', d) {
      if d != c {
        assert CallerOk(st, d);
      }
    }
  }

  lemma CallKeepsInv(st: State, c: nat, creates: bool)
    requires Inv(st) && Enabled(st, Call(c, creates))
    ensures Inv(Apply(st, Call(c, creates)))
  {
    hide Inv, Leads;
    LocalKeepsInv(st, Apply(st, Call(c, creates)), c);
  }

  /** A caller that moves without an acknowledgement. */
  lemma MoveKeepsInv(st: State, l: Label)
    requires Inv(st) && Enabled(st, l)
    requires l.LookAtMeta? || l.LookAtData? || l.EnsureMetaStream? || l.ReadMeta? || l.EnsureDataStream? || l.GiveUp?
    ensures Inv(Apply(st, l))
  {
    assert CallerOk(st, l.c);
    LocalKeepsInv(st, Apply(st, l), l.c);
  }

  lemma PublishKeepsInv(st: State, l: Label)
    requires Inv(st) && Enabled(st, l) && (l.Publish? || l.PublishFails?)
    ensures Inv(Apply(st, l))
  {
    hide Leads, OwnsMeta;
    assert CallerOk(st, l.c);
    LeadsByLogs(st, Apply(st, l), l.c);
    LocalKeepsInv(st, Apply(st, l), l.c);
  }

  lemma LeadsByLogs(st: State, st': State, c: nat)
    requires st'.meta == st.meta && st'.data == st.data
    ensures OwnsMeta(st', c) == OwnsMeta(st, c)
    ensures forall k :: Leads(st', c, k) == Leads(st, c, k)
  {
  }

  lemma AckKeepsInv(st: State, c: nat)
    requires Inv(st) && Enabled(st, Ack(c))
    ensures Inv(Apply(st, Ack(c)))
  {
    hide Inv;
    AckedIsLogged(st, c);
    LocalKeepsInv(st, Apply(st, Ack(c)), c);
  }

  lemma AckedIsLogged(st: State, c: nat)
    requires Inv(st) && Enabled(st, Ack(c))
    ensures CallerOk(Apply(st, Ack(c)), c)
    ensures forall m | m in Apply(st, Ack(c)).net :: m in st.net
  {
    assert CallerOk(st, c);
  }

  lemma DeliverKeepsInv(st: State, m: Msg)
    requires Inv(st) && Enabled(st, Deliver(m))
    ensures Inv(Apply(st, Deliver(m)))
  {
    var st' := Apply(st, Deliver(m));
    assert Leads(st, m.caller, m.kind);
    forall c | c in st'.callers ensures CallerOk(st', c) {
      assert CallerOk(st, c);
    }
    forall n | n in st'.net ensures Leads(st', n.caller, n.kind) {
      assert Leads(st, n.caller, n.kind);
    }
  }

  lemma StepKeepsInv(st: State, l: Label)
    requires Inv(st) && Enabled(st, l)
    ensures Inv(Apply(st, l))
  {
    hide Inv, Apply, Enabled;
    match l {
      case Call(c, creates) => CallKeepsInv(st, c, creates);
      case Publish(_) => PublishKeepsInv(st, l);
      case PublishFails(_, _) => PublishKeepsInv(st, l);
      case Deliver(m) => DeliverKeepsInv(st, m);
      case Ack(c) => AckKeepsInv(st, c);
      case _ => MoveKeepsInv(st, l);
    }
  }

  lemma {:induction false} RunKeepsInv(st: State, ls: seq<Label>)
    requires Inv(st) && CanRun(st, ls)
    ensures Inv(Run(st, ls))
    decreases |ls|
  {
    hide Inv, Apply, Enabled;
    if ls != [] {
      StepKeepsInv(st, ls[0]);
      RunKeepsInv(Apply(st, ls[0]), ls[1..]);
    }
  }

  // ---- Over a whole run ----

  lemma LogsGrowByStep(st: State, l: Label)
    requires Enabled(st, l)
    ensures st.meta <= Apply(st, l).meta && st.data <= Apply(st, l).data
  {
  }

  lemma {:induction false} LogsOnlyGrow(st: State, ls: seq<Label>)
    requires CanRun(st, ls)
    ensures st.meta <= Run(st, ls).meta && st.data <= Run(st, ls).data
    decreases |ls|
  {
    hide Apply, Enabled;
    if ls != [] {
      LogsGrowByStep(st, ls[0]);
      LogsOnlyGrow(Apply(st, ls[0]), ls[1..]);
    }
  }

  /** Somewhere in the run the meta header of `c` is acknowledged. */
  predicate HeaderAcked(st: State, ls: seq<Label>, c: nat)
    requires CanRun(st, ls)
    decreases |ls|
  {
    && ls != []
    && ((ls[0] == Ack(c) && st.callers[c].pc.kind == MetaHeader) || HeaderAcked(Apply(st, ls[0]), ls[1..], c))
  }

  /** Whatever became of it afterwards, a caller whose meta header was ever acknowledged is the
      one whose header the meta stream begins with. */
  lemma {:induction false} AckedHeaderStays(st: State, ls: seq<Label>, c: nat)
    requires CanRun(st, ls) && HeaderAcked(st, ls, c)
    ensures |Run(st, ls).meta| >= 1 && Run(st, ls).meta[0] == Msg(c, MetaHeader)
    decreases |ls|
  {
    hide Apply;
    if ls[0] == Ack(c) && st.callers[c].pc.kind == MetaHeader {
      LogsOnlyGrow(st, ls);
    } else {
      AckedHeaderStays(Apply(st, ls[0]), ls[1..], c);
    }
  }

  /** However the calls interleave: at most one call ever has its meta header acknowledged,
      also counting those that failed later; the meta records are in order and all its own;
      the data header is published at most once, and not before all three of them; and at
      most one call, of either kind, returns a session. */
  lemma CreationIsExclusive(st: State, ls: seq<Label>, c: nat, d: nat)
    requires Init(st) && CanRun(st, ls)
    ensures var end := Run(st, ls);
            && LogsOk(end)
            && (HeaderAcked(st, ls, c) ==> |end.meta| >= 1 && end.meta[0] == Msg(c, MetaHeader))
            && (HeaderAcked(st, ls, c) && HeaderAcked(st, ls, d) ==> c == d)
            && (c in end.callers && PastMetaHeader(end.callers[c]) ==> OwnsMeta(end, c))
            && (At(end, c, HasSession) ==> |end.meta| == 3 && end.data == [Msg(c, DataHeader)])
            && (At(end, c, HasSession) && At(end, d, HasSession) ==> c == d)
  {
    hide Run, CanRun, HeaderAcked, LogsOk, Leads;
    InitInv(st);
    RunKeepsInv(st, ls);
    var end := Run(st, ls);
    if HeaderAcked(st, ls, c) {
      AckedHeaderStays(st, ls, c);
    }
    if HeaderAcked(st, ls, d) {
      AckedHeaderStays(st, ls, d);
    }
    if c in end.callers {
      assert CallerOk(end, c);
    }
    if d in end.callers {
      assert CallerOk(end, d);
    }
  }

  lemma InitInv(st: State)
    requires Init(st)
    ensures Inv(st)
  {
  }

  // ---- The presence check ----

  predicate PastStart(st: State, c: nat) {
    c in st.callers && st.callers[c].pc != Start
  }

  /** `c` looks at the meta stream before any call has ensured it. */
  predicate LooksEarly(ls: seq<Label>, c: nat) {
    ls != [] && (ls[0] == LookAtMeta(c) || (!ls[0].EnsureMetaStream? && LooksEarly(ls[1..], c)))
  }

  lemma SawOnceByStep(st: State, l: Label, c: nat)
    requires Enabled(st, l)
    ensures PastStart(st, c) ==> PastStart(Apply(st, l), c)
    ensures PastStart(st, c) && Apply(st, l).callers[c].pc.SawMeta? ==> Apply(st, l).callers[c] == st.callers[c]
    ensures !PastStart(st, c) && PastStart(Apply(st, l), c) ==>
              if l == LookAtMeta(c) then Apply(st, l).callers[c].pc == SawMeta(st.metaExists)
              else !Apply(st, l).callers[c].pc.SawMeta?
    ensures Apply(st, l).metaExists == (st.metaExists || l.EnsureMetaStream?)
    ensures Apply(st, l).dataExists == (st.dataExists || l.EnsureDataStream?)
    ensures l == LookAtMeta(c) ==> PastStart(Apply(st, l), c)
  {
  }

  lemma {:induction false} SawOnce(st: State, ls: seq<Label>, c: nat)
    requires CanRun(st, ls) && PastStart(st, c)
    ensures PastStart(Run(st, ls), c)
    ensures Run(st, ls).callers[c].pc.SawMeta? ==> Run(st, ls).callers[c] == st.callers[c]
    decreases |ls|
  {
    hide Apply, Enabled, PastStart;
    if ls != [] {
      SawOnceByStep(st, ls[0], c);
      SawOnce(Apply(st, ls[0]), ls[1..], c);
    }
  }

  lemma {:induction false} SawIffLate(st: State, ls: seq<Label>, c: nat)
    requires CanRun(st, ls) && !PastStart(st, c)
    requires c in Run(st, ls).callers && Run(st, ls).callers[c].pc.SawMeta?
    ensures Run(st, ls).callers[c].pc.present <==> st.metaExists || !LooksEarly(ls, c)
    decreases |ls|
  {
    hide Apply, Enabled;
    if ls != [] {
      var next := Apply(st, ls[0]);
      SawOnceByStep(st, ls[0], c);
      if PastStart(next, c) {
        SawOnce(next, ls[1..], c);
      } else {
        SawIffLate(next, ls[1..], c);
      }
    }
  }

  lemma {:induction false} DataExistsIffEnsured(st: State, ls: seq<Label>)
    requires CanRun(st, ls)
    ensures Run(st, ls).dataExists <==> st.dataExists || exists l :: l in ls && l.EnsureDataStream?
    decreases |ls|
  {
    hide Apply, Enabled, PastStart;
    if ls != [] {
      SawOnceByStep(st, ls[0], 0);
      DataExistsIffEnsured(Apply(st, ls[0]), ls[1..]);
      assert forall l :: l in ls <==> l == ls[0] || l in ls[1..];
    }
  }

  /** Exactly when a creation passes the presence check: when it looked at the meta stream
      before any call had ensured that one, and at the data stream before any had ensured the
      other. Nothing in this keeps a second creation from passing too. */
  lemma PassesPresenceCheckIff(st: State, ls: seq<Label>, c: nat)
    requires Init(st) && CanRun(st, ls) && Enabled(Run(st, ls), LookAtData(c))
    requires Run(st, ls).callers[c].creates
    ensures At(Apply(Run(st, ls), LookAtData(c)), c, Admitted) <==>
              LooksEarly(ls, c) && forall l | l in ls :: !l.EnsureDataStream?
  {
    hide Run, CanRun, LooksEarly;
    SawIffLate(st, ls, c);
    DataExistsIffEnsured(st, ls);
  }

  /** Two creations can both find nothing and both be admitted; only the publish of the meta
      header tells them apart. */
  lemma PresenceCheckDoesNotExclude(st: State)
    requires Init(st)
    ensures var ls := [Call(0, true), Call(1, true), LookAtMeta(0), LookAtMeta(1), LookAtData(0), LookAtData(1)];
            CanRun(st, ls) && At(Run(st, ls), 0, Admitted) && At(Run(st, ls), 1, Admitted)
  {
    hide CanRun, Run;
    var s1 := Apply(st, Call(0, true));
    var s2 := Apply(s1, Call(1, true));
    var s3 := Apply(s2, LookAtMeta(0));
    var s4 := Apply(s3, LookAtMeta(1));
    var s5 := Apply(s4, LookAtData(0));
    var s6 := Apply(s5, LookAtData(1));
    RunNone(s6);
    var rest := [LookAtData(1)] + [];
    RunOne(s5, LookAtData(1), []);
    RunOne(s4, LookAtData(0), rest);
    rest := [LookAtData(0)] + rest;
    RunOne(s3, LookAtMeta(1), rest);
    rest := [LookAtMeta(1)] + rest;
    RunOne(s2, LookAtMeta(0), rest);
    rest := [LookAtMeta(0)] + rest;
    RunOne(s1, Call(1, true), rest);
    rest := [Call(1, true)] + rest;
    RunOne(st, Call(0, true), rest);
    assert [Call(0, true)] + rest
        == [Call(0, true), Call(1, true), LookAtMeta(0), LookAtMeta(1), LookAtData(0), LookAtData(1)];
  }

  lemma RunNone(st: State)
    ensures CanRun(st, []) && Run(st, []) == st
  {
  }

  lemma RunOne(st: State, l: Label, rest: seq<Label>)
    requires Enabled(st, l) && CanRun(Apply(st, l), rest)
    ensures CanRun(st, [l] + rest) && Run(st, [l] + rest) == Run(Apply(st, l), rest)
  {
    hide Enabled, Apply;
    assert ([l] + rest)[0] == l && ([l] + rest)[1..] == rest;
  }

  // ---- What goes well ----

  lemma {:induction false} RunBoth(st: State, a: seq<Label>, b: seq<Label>)
    requires CanRun(st, a) && CanRun(Run(st, a), b)
    ensures CanRun(st, a + b) && Run(st, a + b) == Run(Run(st, a), b)
    decreases |a|
  {
    hide Enabled, Apply;
    if a == [] {
      assert a + b == b;
    } else {
      RunBoth(Apply(st, a[0]), a[1..], b);
      assert (a + b)[0] == a[0] && (a + b)[1..] == a[1..] + b;
    }
  }

  predicate StreamOpen(st: State, k: Kind) {
    if k == DataHeader then st.dataExists else st.metaExists
  }

  /** Only the caller's place and the log have changed. */
  predicate Published(st: State, end: State, c: nat, k: Kind)
    requires c in st.callers
  {
    && end.metaExists == st.metaExists && end.dataExists == st.dataExists
    && end.callers == st.callers[c := Caller(st.callers[c].creates, AfterAck(k))]
    && end.meta == (if k == DataHeader then st.meta else st.meta + [Msg(c, k)])
    && end.data == (if k == DataHeader then st.data + [Msg(c, k)] else st.data)
  }

  lemma Publishes(st: State, c: nat, k: Kind) returns (ls: seq<Label>)
    requires At(st, c, Ready(k)) && StreamOpen(st, k) && |Log(st, k)| == Expected(k)
    ensures CanRun(st, ls) && Published(st, Run(st, ls), c, k)
  {
    hide CanRun, Run;
    var s1 := Apply(st, Publish(c));
    var s2 := Apply(s1, Deliver(Msg(c, k)));
    var s3 := Apply(s2, Ack(c));
    RunNone(s3);
    RunOne(s2, Ack(c), []);
    ls := [Ack(c)] + [];
    RunOne(s1, Deliver(Msg(c, k)), ls);
    ls := [Deliver(Msg(c, k))] + ls;
    RunOne(st, Publish(c), ls);
    ls := [Publish(c)] + ls;
  }

  lemma Calls(st: State, c: nat, creates: bool) returns (ls: seq<Label>)
    requires c !in st.callers && !st.dataExists && st.metaExists != creates
    ensures CanRun(st, ls) && Run(st, ls) == st.(callers := st.callers[c := Caller(creates, Admitted)])
  {
    hide CanRun, Run;
    var s1 := Apply(st, Call(c, creates));
    var s2 := Apply(s1, LookAtMeta(c));
    var s3 := Apply(s2, LookAtData(c));
    assert s3.callers == st.callers[c := Caller(creates, Admitted)];
    RunNone(s3);
    RunOne(s2, LookAtData(c), []);
    ls := [LookAtData(c)] + [];
    RunOne(s1, LookAtMeta(c), ls);
    ls := [LookAtMeta(c)] + ls;
    RunOne(st, Call(c, creates), ls);
    ls := [Call(c, creates)] + ls;
  }

  lemma OneStep(st: State, l: Label) returns (ls: seq<Label>)
    requires Enabled(st, l)
    ensures CanRun(st, ls) && Run(st, ls) == Apply(st, l)
  {
    hide Enabled, Apply, CanRun, Run;
    RunNone(Apply(st, l));
    RunOne(st, l, []);
    ls := [l] + [];
  }

  /** From the data stream on, creation and completion go the same way. */
  lemma Finishes(st: State, c: nat) returns (ls: seq<Label>)
    requires At(st, c, NeedsData) && st.data == []
    ensures CanRun(st, ls)
    ensures var end := Run(st, ls);
            At(end, c, HasSession) && end.meta == st.meta && end.data == [Msg(c, DataHeader)]
  {
    hide CanRun, Run;
    ls := OneStep(st, EnsureDataStream(c));
    var s1 := Apply(st, EnsureDataStream(c));
    var more := Publishes(s1, c, DataHeader);
    RunBoth(st, ls, more);
    ls := ls + more;
  }

  /** The three meta records of a creator, up to the point where it needs the data stream. */
  lemma WritesMeta(st: State, c: nat) returns (ls: seq<Label>)
    requires Init(st)
    ensures CanRun(st, ls)
    ensures var end := Run(st, ls);
            && end.callers == map[c := Caller(true, NeedsData)] && end.metaExists && !end.dataExists
            && end.meta == [Msg(c, MetaHeader), Msg(c, ClaimFrame), Msg(c, DescriptorFrame)] && end.data == []
  {
    hide CanRun, Run;
    ls := Calls(st, c, true);
    var s1 := Run(st, ls);
    var more := OneStep(s1, EnsureMetaStream(c));
    RunBoth(st, ls, more);
    ls := ls + more;
    var s2 := Run(st, ls);
    more := Publishes(s2, c, MetaHeader);
    RunBoth(st, ls, more);
    ls := ls + more;
    var s3 := Run(st, ls);
    more := Publishes(s3, c, ClaimFrame);
    RunBoth(st, ls, more);
    ls := ls + more;
    var s4 := Run(st, ls);
    more := Publishes(s4, c, DescriptorFrame);
    RunBoth(st, ls, more);
    ls := ls + more;
  }

  /** An uncontested creation returns its session, with all four records its own. */
  lemma UncontestedCreateReturns(st: State, c: nat) returns (ls: seq<Label>)
    requires Init(st)
    ensures CanRun(st, ls)
    ensures var end := Run(st, ls);
            && At(end, c, HasSession) && end.data == [Msg(c, DataHeader)]
            && end.meta == [Msg(c, MetaHeader), Msg(c, ClaimFrame), Msg(c, DescriptorFrame)]
  {
    hide CanRun, Run;
    ls := WritesMeta(st, c);
    var more := Finishes(Run(st, ls), c);
    RunBoth(st, ls, more);
    ls := ls + more;
  }

  /** When a creator stops after its meta records, a completion takes over and returns. */
  lemma CompletionTakesOver(st: State, c: nat, d: nat) returns (ls: seq<Label>)
    requires Init(st) && c != d
    ensures CanRun(st, ls)
    ensures var end := Run(st, ls);
            && At(end, c, Failed) && At(end, d, HasSession) && !end.callers[d].creates
            && end.data == [Msg(d, DataHeader)] && |end.meta| == 3 && end.meta[0].caller == c
  {
    hide CanRun, Run, Enabled, Apply;
    ls := WritesMeta(st, c);
    var s1 := Run(st, ls);
    var more := Stops(s1, c);
    RunBoth(st, ls, more);
    ls := ls + more;
    var s2 := Run(st, ls);
    more := Calls(s2, d, false);
    RunBoth(st, ls, more);
    ls := ls + more;
    var s3 := Run(st, ls);
    more := Takes(s3, d);
    RunBoth(st, ls, more);
    ls := ls + more;
    var s4 := Run(st, ls);
    more := Finishes(s4, d);
    RunBoth(st, ls, more);
    OthersStay(s4, more, c, d);
    ls := ls + more;
  }

  lemma Stops(st: State, c: nat) returns (ls: seq<Label>)
    requires At(st, c, NeedsData)
    ensures CanRun(st, ls) && Run(st, ls) == st.(callers := st.callers[c := Caller(st.callers[c].creates, Failed)])
  {
    hide CanRun, Run;
    ls := OneStep(st, GiveUp(c));
  }

  lemma Takes(st: State, d: nat) returns (ls: seq<Label>)
    requires At(st, d, Admitted) && !st.callers[d].creates && |st.meta| == 3
    ensures CanRun(st, ls) && Run(st, ls) == st.(callers := st.callers[d := Caller(false, NeedsData)])
  {
    hide CanRun, Run;
    ls := OneStep(st, ReadMeta(d));
  }

  lemma FailedStep(st: State, l: Label, c: nat)
    requires At(st, c, Failed) && Enabled(st, l)
    ensures At(Apply(st, l), c, Failed)
    ensures forall d | d in st.callers :: d in Apply(st, l).callers && Apply(st, l).callers[d].creates == st.callers[d].creates
  {
  }

  /** A call that has failed stays so, and none changes its kind. */
  lemma {:induction false} OthersStay(st: State, ls: seq<Label>, c: nat, d: nat)
    requires CanRun(st, ls) && At(st, c, Failed) && d in st.callers
    ensures At(Run(st, ls), c, Failed)
    ensures d in Run(st, ls).callers && Run(st, ls).callers[d].creates == st.callers[d].creates
    decreases |ls|
  {
    hide Enabled, Apply, At;
    if ls != [] {
      FailedStep(st, ls[0], c);
      OthersStay(Apply(st, ls[0]), ls[1..], c, d);
    }
  }
}
