/**
 Recognising TLS on a TCP connection: the default set of probes inside the retry loop, from the reads of the
 connection to the outcome.
 */
module TcpSniffing {
  import opened Bytes
  import Hello = ClientHello
  import Set = SnifferSet
  import Loop = SniffLoop

  // ---- what the TCP probes say ----

  /** `http` is what the header parser makes of a request line, `text` the conversion of a name to a string. */
  datatype Env = Env(http: seq<byte> -> Set.Answer, text: seq<byte> -> string)

  const METHODS: seq<string> := ["get", "post", "head", "put", "delete", "options", "connect"]

  datatype MethodScan = Short | Method | NoMethod

  /** The letter's code, in lower case. */
  function Lower(b: byte): int {
    if 0x41 <= b <= 0x5A then b + 32 else b
  }

  predicate Begins(payload: seq<byte>, method': string)
    requires |method'| <= |payload|
  {
    forall i | 0 <= i < |method'| :: Lower(payload[i]) == method'[i] as int
  }

  /** The methods are tried in turn; a payload shorter than the next one to try is undecided. */
  function ScanMethods(payload: seq<byte>, methods: seq<string>): MethodScan {
    if methods == [] then NoMethod
    else if |payload| < |methods[0]| then Short
    else if Begins(payload, methods[0]) then Method
    else ScanMethods(payload, methods[1..])
  }

  method BeginsWithMethod(payload: seq<byte>) returns (scan: MethodScan)
    ensures scan == ScanMethods(payload, METHODS)
  {
    hide Begins;
    assert METHODS[0..] == METHODS;
    for i := 0 to |METHODS|
      invariant ScanMethods(payload, METHODS) == ScanMethods(payload, METHODS[i..])
    {
      assert METHODS[i..][0] == METHODS[i] && METHODS[i..][1..] == METHODS[i + 1..];
      if |payload| < |METHODS[i]| {
        return Short;
      }
      if Begins(payload, METHODS[i]) {
        return Method;
      }
    }
    return NoMethod;
  }

  function HttpAnswer(env: Env, payload: seq<byte>): Set.Answer {
    match ScanMethods(payload, METHODS)
    case Short => Set.NoClue
    case NoMethod => Set.NotMine
    case Method => env.http(payload)
  }

  function TlsAnswer(env: Env, payload: seq<byte>): Set.Answer {
    match Hello.InRecord(payload)
    case Found(name) => Set.Hit("tls", env.text(name))
    case NotIt => Set.NotMine
    case NoClue => Set.NoClue
    case NeedMore => Set.NeedMore
  }

  /** The handshake starts with its own length, 19, and the protocol's name. */
  function BitTorrentAnswer(payload: seq<byte>): Set.Answer {
    if |payload| >= 20 && payload[0] == 0x13 && forall i | 0 <= i < 19 :: payload[i + 1] == "BitTorrent protocol"[i] as int
    then Set.Hit("bittorrent", "") else Set.NotMine
  }

  /** The probes of the default set by their place in it; the last two are not asked on TCP. */
  function Ask(env: Env): Set.Oracle {
    (p: Set.Probe, payload: seq<byte>) =>
      if p.id == 0 then HttpAnswer(env, payload)
      else if p.id == 1 then TlsAnswer(env, payload)
      else if p.id == 2 then BitTorrentAnswer(payload)
      else Set.NotMine
  }

  function Http(): Set.Probe {
    Set.DefaultSet()[0]
  }

  function Tls(): Set.Probe {
    Set.DefaultSet()[1]
  }

  function BitTorrent(): Set.Probe {
    Set.DefaultSet()[2]
  }

  /** A payload that begins like a TLS record. */
  predicate LooksTls(payload: seq<byte>) {
    payload != [] && payload[0] == 0x16
  }

  /** A method name cannot begin a TLS record. */
  predicate NotTls(name: string) {
    name != "" && name[0] as int > 0x16
  }

  lemma {:induction false} ScanTls(payload: seq<byte>, methods: seq<string>)
    requires LooksTls(payload) && forall i | 0 <= i < |methods| :: NotTls(methods[i])
    ensures ScanMethods(payload, methods)
         == if exists i | 0 <= i < |methods| :: |methods[i]| > |payload| then Short else NoMethod
  {
    if methods != [] {
      var rest := methods[1..];
      assert forall i | 0 <= i < |rest| :: rest[i] == methods[i + 1];
      ScanTls(payload, rest);
      if i :| 0 <= i < |methods| && |methods[i]| > |payload| {
        assert i > 0 ==> |rest[i - 1]| > |payload|;
      }
    }
  }

  lemma MethodNames()
    ensures |METHODS| == 7 && |METHODS[6]| == 7
    ensures forall i | 0 <= i < 7 :: NotTls(METHODS[i]) && |METHODS[i]| <= 7
  {
    assert NotTls("get") && NotTls("post") && NotTls("head") && NotTls("put");
    assert NotTls("delete") && NotTls("options") && NotTls("connect");
    assert METHODS == ["get", "post", "head", "put", "delete", "options", "connect"];
  }

  lemma MethodScanOnTls(payload: seq<byte>)
    requires LooksTls(payload)
    ensures ScanMethods(payload, METHODS) == if |payload| < 7 then Short else NoMethod
  {
    MethodNames();
    ScanTls(payload, METHODS);
    hide ScanMethods, NotTls;
    if |payload| < 7 {
      assert |METHODS[6]| > |payload|;
    }
  }

  /** HTTP is undecided about a TLS record below seven bytes, the longest method, and out from there on. */
  lemma HttpOnTls(env: Env, payload: seq<byte>)
    requires LooksTls(payload)
    ensures Ask(env)(Http(), payload) == if |payload| < 7 then Set.NoClue else Set.NotMine
  {
    assert Http().id == 0;
    assert Ask(env)(Http(), payload) == HttpAnswer(env, payload);
    MethodScanOnTls(payload);
    hide Ask, ScanMethods;
  }

  lemma BitTorrentOnTls(env: Env, payload: seq<byte>)
    requires LooksTls(payload)
    ensures Ask(env)(BitTorrent(), payload) == Set.NotMine
  {
    assert BitTorrent().id == 2;
  }

  lemma TlsProbe(env: Env, payload: seq<byte>)
    ensures Ask(env)(Tls(), payload) == TlsAnswer(env, payload)
  {
    assert Tls().id == 1;
  }

  // ---- rounds ----

  function TcpRound(env: Env, probes: seq<Set.Probe>, payload: seq<byte>): (Set.Outcome, seq<Set.Probe>) {
    Set.Round(probes, Ask(env), payload, Set.TCP)
  }

  /** The first four bytes decide nothing, and the cut drops the TLS probe. */
  lemma ShortFirstRound(env: Env, payload: seq<byte>)
    requires LooksTls(payload) && |payload| < 5
    ensures TcpRound(env, Set.DefaultSet(), payload) == (Set.RetryAll, [Http(), BitTorrent()])
  {
    HttpOnTls(env, payload);
    BitTorrentOnTls(env, payload);
    TlsProbe(env, payload);
    assert TlsAnswer(env, payload) == Set.NoClue;
    hide Ask;
    Set.TlsProbeLost(Ask(env), payload);
  }

  /** What can be left after that round: TLS is not among it. */
  predicate Spent(probes: seq<Set.Probe>) {
    probes == [Http(), BitTorrent()] || probes == [Http()] || probes == []
  }

  lemma SpentRound(env: Env, probes: seq<Set.Probe>, payload: seq<byte>)
    requires Spent(probes) && LooksTls(payload)
    ensures var r := TcpRound(env, probes, payload); (r.0.RetryAll? || r.0.Unknown?) && Spent(r.1)
  {
    HttpOnTls(env, payload);
    BitTorrentOnTls(env, payload);
    hide Ask;
    var ask := Ask(env);
    assert forall p | p in probes :: !Set.Decides(p, ask, payload, Set.TCP);
    assert Set.Decider(probes, ask, payload, Set.TCP) == |probes|;
    var w := Set.Waiting(probes, ask, payload, Set.TCP, |probes|);
    OnlyFirstWaits(probes, ask, payload, w);
    assert [0][1..] == [];
  }

  lemma OnlyFirstWaits(probes: seq<Set.Probe>, ask: Set.Oracle, payload: seq<byte>, w: seq<nat>)
    requires |probes| <= 2 && w == Set.Waiting(probes, ask, payload, Set.TCP, |probes|)
    requires |probes| == 2 ==> !Set.Waits(probes[1], ask, payload, Set.TCP)
    ensures w == [] || w == [0]
  {
    hide Set.Waits, Set.Increasing;
    if |probes| >= 1 {
      Set.WaitingStep(probes, ask, payload, Set.TCP, 0);
    }
    if |probes| == 2 {
      Set.WaitingStep(probes, ask, payload, Set.TCP, 1);
    }
  }

  /** While the TLS probe is in the set and has five bytes of a record, it decides the round. */
  lemma TlsRound(env: Env, probes: seq<Set.Probe>, payload: seq<byte>)
    requires probes == Set.DefaultSet() || probes == [Tls()]
    requires LooksTls(payload) && (TlsAnswer(env, payload).NeedMore? || TlsAnswer(env, payload).Hit?)
    ensures var a := TlsAnswer(env, payload);
            TcpRound(env, probes, payload) == if a.Hit? then (Set.Found(a.protocol, a.domain), probes) else (Set.RetryOne, [Tls()])
  {
    HttpOnTls(env, payload);
    TlsProbe(env, payload);
    hide Ask, TlsAnswer;
    var ask := Ask(env);
    var at := if probes == [Tls()] then 0 else 1;
    assert probes[at] == Tls() && Set.Decides(probes[at], ask, payload, Set.TCP);
    assert at == 1 ==> probes[0] == Http() && !Set.Decides(probes[0], ask, payload, Set.TCP);
    var d := Set.Decider(probes, ask, payload, Set.TCP);
    hide Set.Decides, Set.Decider;
    assert d == at;
  }

  // ---- connections ----

  /** The set after these payloads; an empty one is not shown to it. */
  function SetAfter(env: Env, payloads: seq<seq<byte>>): seq<Set.Probe> {
    if payloads == [] then Set.DefaultSet()
    else
      var before, last := SetAfter(env, payloads[..|payloads| - 1]), payloads[|payloads| - 1];
      if last == [] then before else TcpRound(env, before, last).1
  }

  /** How the loop reads a round. */
  function Verdict(o: Set.Outcome): Loop.Verdict {
    match o
    case Found(protocol, domain) => Loop.Hit(protocol, domain)
    case RetryAll => Loop.NoClue
    case RetryOne => Loop.NeedMore
    case Unknown => Loop.Refused("unknown content")
  }

  /** The verdicts are those of the shrinking set. */
  ghost predicate Judged(env: Env, judge: Loop.Judge, payloads: seq<seq<byte>>) {
    forall k: nat | k < |payloads| && payloads[k] != [] ::
      judge(k, payloads[k]) == Verdict(TcpRound(env, SetAfter(env, payloads[..k]), payloads[k]).0)
  }

  /** The first payload that is shown to the set: only the first read can be empty. */
  function First(payloads: seq<seq<byte>>): nat {
    if payloads != [] && payloads[0] == [] then 1 else 0
  }

  /** The payloads of a stream that begins like a TLS record. */
  ghost predicate TlsStream(payloads: seq<seq<byte>>, whole: seq<byte>) {
    Loop.Growing(payloads, whole) && LooksTls(whole)
  }

  lemma PayloadLooksTls(payloads: seq<seq<byte>>, whole: seq<byte>, k: nat)
    requires TlsStream(payloads, whole) && k < |payloads|
    ensures payloads[k] == [] || LooksTls(payloads[k])
    ensures k >= First(payloads) ==> payloads[k] != []
    ensures k < First(payloads) ==> payloads[k] == []
  {
    if k > 0 {
      assert payloads[0] < payloads[k];
    }
  }

  lemma SetStep(env: Env, payloads: seq<seq<byte>>, k: nat)
    requires k < |payloads|
    ensures SetAfter(env, payloads[..k + 1])
         == if payloads[k] == [] then SetAfter(env, payloads[..k]) else TcpRound(env, SetAfter(env, payloads[..k]), payloads[k]).1
  {
    assert payloads[..k + 1][..k] == payloads[..k];
  }

  lemma {:induction false} DefaultBefore(env: Env, payloads: seq<seq<byte>>, whole: seq<byte>, k: nat)
    requires TlsStream(payloads, whole) && k <= |payloads| && k <= First(payloads)
    ensures SetAfter(env, payloads[..k]) == Set.DefaultSet()
  {
    hide TcpRound, Set.DefaultSet;
    if k == 0 {
      assert payloads[..0] == [];
    } else {
      PayloadLooksTls(payloads, whole, k - 1);
      DefaultBefore(env, payloads, whole, k - 1);
      SetStep(env, payloads, k - 1);
    }
  }

  /** After a first payload of one to four bytes the TLS probe is gone for good. */
  lemma {:induction false} SpentAfter(env: Env, payloads: seq<seq<byte>>, whole: seq<byte>, k: nat)
    requires TlsStream(payloads, whole) && First(payloads) < k <= |payloads| && |payloads[First(payloads)]| < 5
    ensures Spent(SetAfter(env, payloads[..k]))
    decreases k
  {
    hide TcpRound, Spent, SetAfter;
    PayloadLooksTls(payloads, whole, k - 1);
    SetStep(env, payloads, k - 1);
    if k - 1 == First(payloads) {
      DefaultBefore(env, payloads, whole, k - 1);
      ShortFirstRound(env, payloads[k - 1]);
      FirstCutIsSpent();
    } else {
      SpentAfter(env, payloads, whole, k - 1);
      SpentRound(env, SetAfter(env, payloads[..k - 1]), payloads[k - 1]);
    }
  }

  lemma FirstCutIsSpent()
    ensures Spent([Http(), BitTorrent()])
  {
  }

  lemma QuietRound(env: Env, payloads: seq<seq<byte>>, whole: seq<byte>, k: nat)
    requires TlsStream(payloads, whole) && First(payloads) <= k < |payloads| && |payloads[First(payloads)]| < 5
    ensures var v := TcpRound(env, SetAfter(env, payloads[..k]), payloads[k]).0; v.RetryAll? || v.Unknown?
  {
    hide TcpRound, Spent, SetAfter;
    PayloadLooksTls(payloads, whole, k);
    if k == First(payloads) {
      DefaultBefore(env, payloads, whole, k);
      ShortFirstRound(env, payloads[k]);
    } else {
      SpentAfter(env, payloads, whole, k);
      SpentRound(env, SetAfter(env, payloads[..k]), payloads[k]);
    }
  }

  /**
   A TLS stream of which the first bytes read are one to four is never recognised, in no later round, whatever
   the timing and however much is read.
   */
  lemma ShortReadNeverRecognised(env: Env, judge: Loop.Judge, pace: nat -> Loop.Pace, payloads: seq<seq<byte>>, whole: seq<byte>, o: Loop.Outcome)
    requires Loop.Over(judge, pace, payloads, whole, o) && Judged(env, judge, payloads) && LooksTls(whole)
    requires First(payloads) < |payloads| ==> |payloads[First(payloads)]| < 5
    ensures !o.Recognised?
  {
    hide Loop.Growing, Loop.WentOn, TcpRound, SetAfter, First;
    if o.Recognised? {
      var k := |payloads| - 1;
      LastIsShown(payloads, whole, k);
      QuietRound(env, payloads, whole, k);
    }
  }

  lemma LastIsShown(payloads: seq<seq<byte>>, whole: seq<byte>, k: nat)
    requires TlsStream(payloads, whole) && k < |payloads| && payloads[k] != []
    ensures First(payloads) <= k
  {
    PayloadLooksTls(payloads, whole, k);
  }

  // ---- a hello that is read well enough ----

  /** The stream begins with exactly one record, and the parser finds this name in it. */
  ghost predicate HelloStream(rec: seq<byte>, name: seq<byte>, whole: seq<byte>) {
    && rec <= whole && |rec| >= 5 && |rec| == 5 + U16(rec[3], rec[4])
    && Hello.InRecord(rec) == Hello.Found(name)
  }

  lemma HelloLooksTls(rec: seq<byte>, name: seq<byte>, whole: seq<byte>)
    requires HelloStream(rec, name, whole)
    ensures LooksTls(whole) && |rec| >= 5
  {
    hide Hello.InHandshake;
  }

  /** From five bytes on the TLS probe asks for more until the record is there, and then has the name. */
  lemma AnswerOnHello(env: Env, rec: seq<byte>, name: seq<byte>, whole: seq<byte>, payload: seq<byte>)
    requires HelloStream(rec, name, whole) && payload <= whole && |payload| >= 5
    ensures TlsAnswer(env, payload) == if |payload| < |rec| then Set.NeedMore else Set.Hit("tls", env.text(name))
  {
    hide Hello.InHandshake;
    var end := 5 + U16(rec[3], rec[4]);
    assert payload[0] == rec[0] && payload[1] == rec[1] && payload[3] == rec[3] && payload[4] == rec[4];
    if |payload| >= end {
      assert payload[5..end] == rec[5..end];
    }
  }

  /** The TLS probe alone is left from the first payload on, as long as the record is incomplete. */
  lemma {:induction false} TlsAfter(env: Env, payloads: seq<seq<byte>>, whole: seq<byte>, rec: seq<byte>, name: seq<byte>, k: nat)
    requires TlsStream(payloads, whole) && HelloStream(rec, name, whole) && k <= |payloads|
    requires First(payloads) < |payloads| && |payloads[First(payloads)]| >= 5
    requires forall j | 0 <= j < k :: |payloads[j]| < |rec|
    ensures SetAfter(env, payloads[..k]) == Set.DefaultSet() || SetAfter(env, payloads[..k]) == [Tls()]
    decreases k
  {
    hide TcpRound, SetAfter, HelloStream, Set.DefaultSet, TlsAnswer;
    if k <= First(payloads) {
      DefaultBefore(env, payloads, whole, k);
    } else {
      TlsAfter(env, payloads, whole, rec, name, k - 1);
      SetStep(env, payloads, k - 1);
      PayloadLooksTls(payloads, whole, k - 1);
      LongEnough(payloads, whole, k - 1);
      AnswerOnHello(env, rec, name, whole, payloads[k - 1]);
      TlsRound(env, SetAfter(env, payloads[..k - 1]), payloads[k - 1]);
    }
  }

  lemma LongEnough(payloads: seq<seq<byte>>, whole: seq<byte>, k: nat)
    requires TlsStream(payloads, whole) && First(payloads) <= k < |payloads| && |payloads[First(payloads)]| >= 5
    ensures |payloads[k]| >= 5 && payloads[k] <= whole
  {
    if First(payloads) < k {
      assert payloads[First(payloads)] < payloads[k];
    }
  }

  /** The verdict on a payload of at least five bytes, while all before it were incomplete. */
  lemma HelloVerdict(env: Env, payloads: seq<seq<byte>>, whole: seq<byte>, rec: seq<byte>, name: seq<byte>, k: nat)
    requires TlsStream(payloads, whole) && HelloStream(rec, name, whole) && First(payloads) <= k < |payloads|
    requires |payloads[First(payloads)]| >= 5 && forall j | 0 <= j < k :: |payloads[j]| < |rec|
    ensures TcpRound(env, SetAfter(env, payloads[..k]), payloads[k]).0
         == if |payloads[k]| < |rec| then Set.RetryOne else Set.Found("tls", env.text(name))
  {
    hide TcpRound, SetAfter, HelloStream, Set.DefaultSet, TlsAnswer;
    TlsAfter(env, payloads, whole, rec, name, k);
    PayloadLooksTls(payloads, whole, k);
    LongEnough(payloads, whole, k);
    AnswerOnHello(env, rec, name, whole, payloads[k]);
    TlsRound(env, SetAfter(env, payloads[..k]), payloads[k]);
  }

  /** A payload with the whole record ends the loop, so all before it were incomplete. */
  lemma {:induction false} IncompleteBefore(env: Env, judge: Loop.Judge, pace: nat -> Loop.Pace, payloads: seq<seq<byte>>, whole: seq<byte>,
                           rec: seq<byte>, name: seq<byte>, n: nat, k: nat)
    requires TlsStream(payloads, whole) && HelloStream(rec, name, whole) && Judged(env, judge, payloads)
    requires First(payloads) < |payloads| && |payloads[First(payloads)]| >= 5
    requires k <= n <= |payloads| && Loop.WentOn(judge, pace, payloads, n)
    ensures forall j | 0 <= j < k :: |payloads[j]| < |rec|
  {
    if k > 0 {
      assert Loop.GoesOn(judge, pace, payloads, k - 1);
      hide Loop.WentOn, Loop.Attempts, Loop.Budget, Loop.Growing, HelloStream, TcpRound, SetAfter;
      IncompleteBefore(env, judge, pace, payloads, whole, rec, name, n, k - 1);
      HelloLooksTls(rec, name, whole);
      PayloadLooksTls(payloads, whole, k - 1);
      hide TlsStream, First;
      if First(payloads) <= k - 1 {
        HelloVerdict(env, payloads, whole, rec, name, k - 1);
      }
    }
  }

  /** The bytes shown to the set first. */
  function FirstShown(payloads: seq<seq<byte>>): seq<byte> {
    if First(payloads) < |payloads| then payloads[First(payloads)] else []
  }

  /** The outcome of a connection with these payloads, judged by the shrinking set. */
  ghost predicate Sniffed(env: Env, judge: Loop.Judge, pace: nat -> Loop.Pace, payloads: seq<seq<byte>>, whole: seq<byte>, o: Loop.Outcome) {
    Loop.Over(judge, pace, payloads, whole, o) && Judged(env, judge, payloads)
  }

  lemma LongReadRecognised(env: Env, judge: Loop.Judge, pace: nat -> Loop.Pace, payloads: seq<seq<byte>>, whole: seq<byte>, o: Loop.Outcome,
                           rec: seq<byte>, name: seq<byte>)
    requires Sniffed(env, judge, pace, payloads, whole, o) && HelloStream(rec, name, whole)
    requires payloads != [] && |payloads[|payloads| - 1]| >= |rec| && |FirstShown(payloads)| >= 5
    ensures o == Loop.Recognised("tls", env.text(name))
  {
    hide Loop.WentOn, Loop.EndsWith, Loop.Attempts, Loop.Growing, HelloStream, TcpRound, SetAfter, First;
    HelloLooksTls(rec, name, whole);
    var n := |payloads|;
    LastIsShown(payloads, whole, n - 1);
    LastRounds(judge, pace, payloads, whole, o);
    IncompleteBefore(env, judge, pace, payloads, whole, rec, name, n - 1, n - 1);
    HelloVerdict(env, payloads, whole, rec, name, n - 1);
    HitEnds(judge, pace, payloads, whole, o, "tls", env.text(name));
  }

  lemma ShortReadNotRecognised(env: Env, judge: Loop.Judge, pace: nat -> Loop.Pace, payloads: seq<seq<byte>>, whole: seq<byte>, o: Loop.Outcome)
    requires Sniffed(env, judge, pace, payloads, whole, o) && LooksTls(whole) && |FirstShown(payloads)| < 5
    ensures !o.Recognised?
  {
    hide Loop.Over, Judged, First;
    ShortReadNeverRecognised(env, judge, pace, payloads, whole, o);
  }

  /**
   A ClientHello whose record has been read in full is recognised, with its name, if and only if the first bytes
   read were at least five.
   */
  lemma RecognisedExactly(env: Env, judge: Loop.Judge, pace: nat -> Loop.Pace, payloads: seq<seq<byte>>, whole: seq<byte>, o: Loop.Outcome,
                          rec: seq<byte>, name: seq<byte>)
    requires Sniffed(env, judge, pace, payloads, whole, o) && HelloStream(rec, name, whole)
    requires payloads != [] && |payloads[|payloads| - 1]| >= |rec|
    ensures if |FirstShown(payloads)| >= 5 then o == Loop.Recognised("tls", env.text(name)) else !o.Recognised?
  {
    hide Sniffed, HelloStream, FirstShown;
    HelloLooksTls(rec, name, whole);
    if |FirstShown(payloads)| >= 5 {
      LongReadRecognised(env, judge, pace, payloads, whole, o, rec, name);
    } else {
      ShortReadNotRecognised(env, judge, pace, payloads, whole, o);
    }
  }

  lemma LastRounds(judge: Loop.Judge, pace: nat -> Loop.Pace, payloads: seq<seq<byte>>, whole: seq<byte>, o: Loop.Outcome)
    requires Loop.Over(judge, pace, payloads, whole, o) && payloads != []
    ensures Loop.WentOn(judge, pace, payloads, |payloads| - 1)
  {
    hide Loop.GoesOn, Loop.Growing;
  }

  lemma HitEnds(judge: Loop.Judge, pace: nat -> Loop.Pace, payloads: seq<seq<byte>>, whole: seq<byte>, o: Loop.Outcome, protocol: string, domain: string)
    requires Loop.Over(judge, pace, payloads, whole, o) && payloads != [] && payloads[|payloads| - 1] != []
    requires judge(|payloads| - 1, payloads[|payloads| - 1]) == Loop.Hit(protocol, domain)
    ensures o == Loop.Recognised(protocol, domain)
  {
    hide Loop.Growing, Loop.Attempts, Loop.Budget;
    assert !Loop.GoesOn(judge, pace, payloads, |payloads| - 1);
  }

  // ---- from the reads to the outcome ----

  /** The payloads of the first k rounds, as the source determines them. */
  function PayloadsBefore(src: Loop.Source, k: nat): seq<seq<byte>>
    requires src.start <= |src.answers| && Loop.Reached(src, k) <= |src.answers|
  {
    seq(k, j requires 0 <= j < k => Loop.Seen(src, j + 1))
  }

  /** The shrinking set as the loop's judge. */
  function SetJudge(env: Env, src: Loop.Source): Loop.Judge
    requires src.start <= |src.answers|
  {
    (k: nat, payload: seq<byte>) =>
      if Loop.Reached(src, k) <= |src.answers| then Verdict(TcpRound(env, SetAfter(env, PayloadsBefore(src, k)), payload).0)
      else Loop.NoClue
  }

  lemma SetJudgeJudges(env: Env, src: Loop.Source, pace: nat -> Loop.Pace, payloads: seq<seq<byte>>)
    requires Loop.Rounds(src, pace, payloads)
    ensures Judged(env, SetJudge(env, src), payloads)
  {
    hide TcpRound, SetAfter, Loop.Seen, Loop.ReadEnds;
    forall k: nat | k < |payloads| && payloads[k] != []
      ensures SetJudge(env, src)(k, payloads[k]) == Verdict(TcpRound(env, SetAfter(env, payloads[..k]), payloads[k]).0)
    {
      assert PayloadsBefore(src, k) == payloads[..k];
    }
  }

  /** The next read brings one to four bytes. */
  predicate ShortRead(answers: seq<Read>, next: nat) {
    next < |answers| && 0 < |BytesOf(answers[next])| < 5
  }

  /**
   Sniffing a TCP connection. If what is cached is empty and the first read brings one to four bytes of a TLS
   record, the connection is not recognised.
   */
  method SniffTcp(cr: Loop.CachedReader, env: Env, pace: nat -> Loop.Pace) returns (o: Loop.Outcome, ghost payloads: seq<seq<byte>>)
    requires cr.Valid()
    modifies cr`next, cr`cache
    ensures cr.Valid() && cr.Rest() == old(cr.Rest())
    ensures var judge := SetJudge(env, Loop.Source(cr.hasInner, cr.answers, Loop.CachedBytes(old(cr.cache)), old(cr.next)));
            Sniffed(env, judge, pace, payloads, cr.Rest(), o)
    ensures LooksTls(old(cr.Rest())) && old(cr.cache).None? && ShortRead(cr.answers, old(cr.next)) ==> !o.Recognised?
  {
    hide Loop.Over, Loop.Seen, Loop.ReadEnds, Judged, SetJudge, Loop.WentOn;
    var src := Loop.Source(cr.hasInner, cr.answers, if cr.cache.Some? then Flatten(cr.cache.value) else [], cr.next);
    assert src.cached == Loop.CachedBytes(cr.cache);
    o, payloads := Loop.SniffConnection(cr, SetJudge(env, src), pace);
    SetJudgeJudges(env, src, pace, payloads);
    if LooksTls(cr.Rest()) && src.cached == [] && ShortRead(src.answers, src.start) {
      FirstPayload(src, pace, payloads);
      ShortReadNeverRecognised(env, SetJudge(env, src), pace, payloads, cr.Rest(), o);
    }
  }

  lemma FirstPayload(src: Loop.Source, pace: nat -> Loop.Pace, payloads: seq<seq<byte>>)
    requires Loop.Rounds(src, pace, payloads) && src.cached == [] && src.start < |src.answers|
    requires BytesOf(src.answers[src.start]) != []
    ensures payloads != [] ==> payloads[0] == BytesOf(src.answers[src.start])
    ensures First(payloads) == 0
  {
    hide Loop.Seen, Loop.ReadEnds;
    Loop.SeenFirst(src);
    Loop.SeenStep(src, 0);
    assert src.cached + BytesOf(src.answers[src.start]) == BytesOf(src.answers[src.start]);
  }
}
