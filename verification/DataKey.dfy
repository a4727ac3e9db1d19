/** The KMIP exchange that creates a data key: which request is sent next, what each reply changes, and
    when the context becomes ready. */
module DataKey {
  import opened Common

  const KEY_LEN: nat := 96
  const IV_LEN: nat := 16
  /** IV, padded AES-CBC ciphertext and HMAC tag of a data key. */
  const WRAPPED_LEN: nat := 160

  /** What the caller configured. `credentials` is the entry of the KMS providers for this key's id, whose
      endpoint is a fallback; `wrap` is the cipher. */
  datatype Config = Config(
    delegated: bool,
    endpoint: Option<string>,
    credentials: Option<Option<string>>,
    userKeyId: Option<string>,
    dek: bytes,
    wrap: (bytes, bytes) -> Option<bytes>)

  datatype Request =
    | Create
    | Register(secret: bytes)
    | Activate(id: string)
    | Get(id: string)
    | Encrypt(id: string, plaintext: bytes)

  datatype Kind = CREATE | REGISTER | ACTIVATE | GET | ENCRYPT

  function KindOf(r: Request): Kind {
    match r
    case Create => CREATE
    case Register(_) => REGISTER
    case Activate(_) => ACTIVATE
    case Get(_) => GET
    case Encrypt(_, _) => ENCRYPT
  }

  /** What the driver fed to the KMS context by the time it reports the request done. */
  datatype Reply =
    | Broken
    | Unfinished
    | UniqueIdentifier(id: string)
    | SecretData(data: bytes)
    | CipherText(iv: bytes, data: bytes)

  datatype State = NeedKms | Ready | Failed

  /** An absent buffer is an empty one: copying an empty buffer leaves no data behind. */
  datatype Data = Data(
    state: State,
    keyId: Option<string>,
    uniqueIdentifier: Option<string>,
    activated: bool,
    secretData: bytes,
    encrypted: bytes,
    sent: seq<Request>)

  function WrapKey(c: Config, kek: bytes): (r: Option<bytes>)
    ensures r.Some? ==> |r.value| == WRAPPED_LEN && |kek| == |c.dek| == KEY_LEN && c.wrap(kek, c.dek) == r
  {
    if |c.dek| != KEY_LEN || |kek| != KEY_LEN then None
    else
      var r := c.wrap(kek, c.dek);
      if r.Some? && |r.value| == WRAPPED_LEN then r else None
  }

  /** The result a KMS context holds once its reply is complete. */
  function ResultOf(r: Request, reply: Reply): Option<Reply> {
    match r
    case Get(_) => if reply.SecretData? then Some(reply) else None
    case Encrypt(_, _) => if reply.CipherText? && |reply.iv| == IV_LEN then Some(reply) else None
    case _ => if reply.UniqueIdentifier? then Some(UniqueIdentifier(CString(reply.id))) else None
  }

  function Fail(d: Data): Data {
    d.(state := Failed)
  }

  function Send(d: Data, r: Request): Data {
    d.(state := NeedKms, sent := d.sent + [r])
  }

  function Finish(d: Data): Data
    requires d.uniqueIdentifier.Some?
  {
    d.(state := Ready, keyId := if d.keyId.None? then d.uniqueIdentifier else d.keyId)
  }

  /** A key id that the user supplied is taken to be activated. */
  function TakeUserKeyId(d: Data): Data {
    if d.keyId.Some? && d.uniqueIdentifier.None? then d.(uniqueIdentifier := d.keyId, activated := true) else d
  }

  predicate Configured(c: Config) {
    c.credentials.Some? && (c.endpoint.Some? || c.credentials.value.Some?)
  }

  /** Sends the next request, or finishes. `random` is the outcome of the random source, used for the
      secret to register. */
  function Start(c: Config, d0: Data, random: Option<bytes>): Data {
    if !Configured(c) then Fail(d0)
    else
      var d := TakeUserKeyId(d0);
      if d.uniqueIdentifier.None? then
        if c.delegated then Send(d, Create)
        else if random.Some? then Send(d, Register(random.value))
        else Fail(d)
      else if !d.activated then Send(d, Activate(d.uniqueIdentifier.value))
      else if c.delegated then
        if d.encrypted == [] then Send(d, Encrypt(d.uniqueIdentifier.value, c.dek)) else Finish(d)
      else if d.secretData == [] then Send(d, Get(d.uniqueIdentifier.value))
      else
        match WrapKey(c, d.secretData)
        case None => Fail(d)
        case Some(e) => Finish(d.(encrypted := e))
  }

  /** Records the result of the last request. */
  function Record(d: Data, result: Reply): Data
    requires !result.Broken? && !result.Unfinished?
    requires d.sent != []
  {
    match result
    case SecretData(s) => d.(secretData := s)
    case CipherText(iv, data) => d.(encrypted := iv + data)
    case UniqueIdentifier(id) =>
      if d.sent[|d.sent| - 1].Activate? then d.(activated := true) else d.(uniqueIdentifier := Some(id))
  }

  function Done(c: Config, d: Data, reply: Reply, random: Option<bytes>): Data {
    if d.state != NeedKms || d.sent == [] then Fail(d)
    else
      match ResultOf(d.sent[|d.sent| - 1], reply)
      case None => Fail(d)
      case Some(result) => Start(c, Record(d, result), random)
  }

  /** The context object: each method is one call of the driver. */
  class Context {
    const config: Config
    var state: State
    var keyId: Option<string>
    var uniqueIdentifier: Option<string>
    var activated: bool
    var secretData: bytes
    var encrypted: bytes
    /** The request of the current KMS context. */
    var request: Option<Request>
    ghost var sent: seq<Request>

    ghost function Snapshot(): Data
      reads this
    {
      Data(state, keyId, uniqueIdentifier, activated, secretData, encrypted, sent)
    }

    ghost predicate Valid()
      reads this
    {
      state.NeedKms? ==> sent != [] && request == Some(sent[|sent| - 1])
    }

    constructor (config: Config, random: Option<bytes>)
      ensures this.config == config && Valid()
      ensures Snapshot() == Start(config, Initial(config), random)
    {
      this.config := config;
      keyId, uniqueIdentifier, activated := config.userKeyId, None, false;
      secretData, encrypted := [], [];
      state, request, sent := Failed, None, [];
      new;
      KmsStart(random);
    }

    method SendRequest(r: Request)
      modifies this
      ensures Valid() && Snapshot() == Send(old(Snapshot()), r)
    {
      request, sent, state := Some(r), sent + [r], NeedKms;
    }

    method KmsStart(random: Option<bytes>)
      modifies this
      ensures Valid() && Snapshot() == Start(config, old(Snapshot()), random)
    {
      state := Failed;
      if config.credentials.None? || (config.endpoint.None? && config.credentials.value.None?) {
        return;
      }
      if keyId.Some? && uniqueIdentifier.None? {
        uniqueIdentifier, activated := keyId, true;
      }
      if uniqueIdentifier.None? {
        if config.delegated {
          SendRequest(Create);
        } else if random.Some? {
          SendRequest(Register(random.value));
        }
        return;
      }
      if !activated {
        SendRequest(Activate(uniqueIdentifier.value));
        return;
      }
      if config.delegated {
        if encrypted == [] {
          SendRequest(Encrypt(uniqueIdentifier.value, config.dek));
          return;
        }
      } else {
        if secretData == [] {
          SendRequest(Get(uniqueIdentifier.value));
          return;
        }
        var wrapped := WrapKey(config, secretData);
        if wrapped.None? {
          return;
        }
        encrypted := wrapped.value;
      }
      if keyId.None? {
        keyId := uniqueIdentifier;
      }
      state := Ready;
    }

    method KmsDone(reply: Reply, random: Option<bytes>)
      requires Valid()
      modifies this
      ensures Valid() && Snapshot() == Done(config, old(Snapshot()), reply, random)
    {
      if state != NeedKms {
        state := Failed;
        return;
      }
      var result := ResultOf(request.value, reply);
      if result.None? {
        state := Failed;
        return;
      }
      match request.value {
        case Create => uniqueIdentifier := Some(result.value.id);
        case Register(_) => uniqueIdentifier := Some(result.value.id);
        case Activate(_) => activated := true;
        case Get(_) => secretData := result.value.data;
        case Encrypt(_, _) => encrypted := result.value.iv + result.value.data;
      }
      KmsStart(random);
    }
  }

  // ----- runs

  function Initial(c: Config): Data {
    Data(Failed, c.userKeyId, None, false, [], [], [])
  }

  /** One reply, with the outcome of the random source should a secret be needed. */
  datatype Event = Event(reply: Reply, random: Option<bytes>)

  function Run(c: Config, random: Option<bytes>, events: seq<Event>): Data {
    if events == [] then Start(c, Initial(c), random)
    else
      var last := events[|events| - 1];
      Done(c, Run(c, random, events[..|events| - 1]), last.reply, last.random)
  }

  /** The number of requests of an undisturbed exchange. */
  function PlanLength(c: Config): nat {
    if c.userKeyId.Some? then 1 else 3
  }

  /** The kind of its i-th request; the last kind is the one that an empty reply repeats. */
  function Planned(c: Config, i: nat): Kind {
    if i + 1 >= PlanLength(c) then if c.delegated then ENCRYPT else GET
    else if i == 0 then if c.delegated then CREATE else REGISTER
    else ACTIVATE
  }

  /** The index in the plan of the request that the recorded results call for. */
  function Position(c: Config, d: Data): nat {
    if d.uniqueIdentifier.None? then 0
    else if !d.activated then 1
    else
      PlanLength(c) - if (if c.delegated then d.encrypted else d.secretData) == [] then 1 else 0
  }

  /** The reply answers the outstanding request. */
  predicate Answers(d: Data, reply: Reply) {
    d.state == NeedKms && d.sent != [] && ResultOf(d.sent[|d.sent| - 1], reply).Some?
  }

  /** The reply answers the request with an empty secret. */
  predicate EmptySecret(reply: Reply) {
    reply.SecretData? && reply.data == []
  }

  /** A request after the first names the key, and an encryption request carries the data key. */
  ghost predicate RequestIsFor(c: Config, d: Data, r: Request) {
    match r
    case Create => true
    case Register(_) => true
    case Activate(id) => d.uniqueIdentifier == Some(id)
    case Get(id) => d.uniqueIdentifier == Some(id)
    case Encrypt(id, plaintext) => d.uniqueIdentifier == Some(id) && plaintext == c.dek
  }

  /** The key id reported to the caller: the user's, or the one the server gave. */
  ghost predicate KeyIdSet(c: Config, d: Data) {
    d.uniqueIdentifier.Some? && d.keyId == if c.userKeyId.Some? then c.userKeyId else d.uniqueIdentifier
  }

  /** The encrypted key is what the server returned, or the data key wrapped under the server's secret. */
  ghost predicate Material(c: Config, d: Data) {
    d.encrypted != [] && (!c.delegated ==> c.wrap(d.secretData, c.dek) == Some(d.encrypted))
  }

  /** A context about to start a request: results are recorded in the order of the plan. */
  ghost predicate Between(c: Config, d: Data) {
    && (d.uniqueIdentifier.None? ==> !d.activated)
    && (!d.activated || !c.delegated ==> d.encrypted == [])
    && (!d.activated || c.delegated ==> d.secretData == [])
    && (c.userKeyId.Some? && d.uniqueIdentifier.Some? ==> d.uniqueIdentifier == c.userKeyId && d.activated)
    && d.keyId == c.userKeyId
  }

  /** The outstanding request is the one at the context's position in the plan. */
  ghost predicate Waiting(c: Config, d: Data) {
    && Configured(c) && Between(c, d) && d.sent != []
    && (c.userKeyId.Some? ==> d.uniqueIdentifier.Some?)
    && Position(c, d) < PlanLength(c) && KindOf(d.sent[|d.sent| - 1]) == Planned(c, Position(c, d))
    && RequestIsFor(c, d, d.sent[|d.sent| - 1])
  }

  ghost predicate Inv(c: Config, d: Data) {
    match d.state
    case NeedKms => Waiting(c, d)
    case Ready => Position(c, d) == PlanLength(c) && KeyIdSet(c, d) && Material(c, d)
    case Failed => true
  }

  lemma StartKeepsInv(c: Config, d: Data, random: Option<bytes>)
    requires Between(c, d)
    ensures Inv(c, Start(c, d, random))
  {
  }

  lemma DoneKeepsInv(c: Config, d: Data, reply: Reply, random: Option<bytes>)
    requires Inv(c, d)
    ensures Inv(c, Done(c, d, reply, random))
  {
    if Answers(d, reply) {
      StartKeepsInv(c, Record(d, ResultOf(d.sent[|d.sent| - 1], reply).value), random);
    }
  }

  /** After any replies: a context that waits has sent the request its results call for, naming the key
      it was given, and a ready context holds encrypted key material and a key id. */
  lemma {:induction false} RunInv(c: Config, random: Option<bytes>, events: seq<Event>)
    ensures Inv(c, Run(c, random, events))
  {
    if events == [] {
      StartKeepsInv(c, Initial(c), random);
    } else {
      var front, last := events[..|events| - 1], events[|events| - 1];
      RunInv(c, random, front);
      DoneKeepsInv(c, Run(c, random, front), last.reply, last.random);
    }
  }

  lemma ReadyHasMaterial(c: Config, random: Option<bytes>, events: seq<Event>)
    requires Run(c, random, events).state == Ready
    ensures var d := Run(c, random, events); KeyIdSet(c, d) && Material(c, d)
  {
    RunInv(c, random, events);
  }

  /** A failed context stays failed. */
  lemma {:induction false} FailureIsFinal(c: Config, random: Option<bytes>, events: seq<Event>, n: nat)
    requires n <= |events| && Run(c, random, events[..n]).state == Failed
    ensures Run(c, random, events).state == Failed
  {
    if n < |events| {
      assert events[..|events| - 1][..n] == events[..n];
      FailureIsFinal(c, random, events[..|events| - 1], n);
    } else {
      assert events[..n] == events;
    }
  }

  // ----- what the requests and the results carry

  /** The id that the requests name: the user's, or the one in the reply to the first request. */
  ghost predicate IsKeyName(c: Config, events: seq<Event>, id: string) {
    if c.userKeyId.Some? then c.userKeyId == Some(id)
    else events != [] && events[0].reply.UniqueIdentifier? && id == CString(events[0].reply.id)
  }

  /** The k-th request: the first one registers the random secret or has the server create one, unless the
      user supplied the key; every other one names the key; what is encrypted is the data key. */
  ghost predicate Carries(c: Config, random: Option<bytes>, events: seq<Event>, k: nat, r: Request) {
    match r
    case Create => k == 0 && c.delegated && c.userKeyId.None?
    case Register(secret) => k == 0 && !c.delegated && c.userKeyId.None? && random == Some(secret)
    case Activate(id) => c.userKeyId.None? && IsKeyName(c, events, id)
    case Get(id) => !c.delegated && IsKeyName(c, events, id)
    case Encrypt(id, plaintext) => c.delegated && IsKeyName(c, events, id) && plaintext == c.dek
  }

  ghost predicate AllCarry(c: Config, random: Option<bytes>, events: seq<Event>, sent: seq<Request>) {
    forall k :: 0 <= k < |sent| ==> Carries(c, random, events, k, sent[k])
  }

  /** The first reply is recorded as the key's id, and nothing else is. */
  ghost predicate NamedBy(c: Config, events: seq<Event>, d: Data) {
    && (d.uniqueIdentifier.Some? ==> IsKeyName(c, events, d.uniqueIdentifier.value))
    && (d.state == NeedKms && d.uniqueIdentifier.None? ==> events == [] && |d.sent| == 1)
    && (d.state == NeedKms && c.userKeyId.None? && d.uniqueIdentifier.Some? ==> events != [])
  }

  lemma MoreEvents(c: Config, random: Option<bytes>, events: seq<Event>, event: Event, sent: seq<Request>)
    requires AllCarry(c, random, events, sent)
    ensures AllCarry(c, random, events + [event], sent)
  {
    forall k | 0 <= k < |sent|
      ensures Carries(c, random, events + [event], k, sent[k])
    {
      assert events != [] ==> (events + [event])[0] == events[0];
    }
  }

  lemma FirstCarries(c: Config, random: Option<bytes>)
    ensures AllCarry(c, random, [], Start(c, Initial(c), random).sent)
    ensures NamedBy(c, [], Start(c, Initial(c), random))
  {
  }

  /** Starting again sends at most one request, which names the key. */
  lemma NextCarries(c: Config, random: Option<bytes>, events: seq<Event>, d: Data, again: Option<bytes>)
    requires Between(c, d) && AllCarry(c, random, events, d.sent) && events != []
    requires d.uniqueIdentifier.Some? && IsKeyName(c, events, d.uniqueIdentifier.value)
    ensures AllCarry(c, random, events, Start(c, d, again).sent)
    ensures NamedBy(c, events, Start(c, d, again))
  {
  }

  /** Recording a reply keeps what was sent and, if the reply is the first, takes the key's id from it. */
  lemma RecordNames(c: Config, front: seq<Event>, event: Event, d: Data)
    requires Waiting(c, d) && d.state == NeedKms && NamedBy(c, front, d) && Answers(d, event.reply)
    ensures var next := Record(d, ResultOf(d.sent[|d.sent| - 1], event.reply).value);
            && Between(c, next) && next.sent == d.sent
            && next.uniqueIdentifier.Some? && IsKeyName(c, front + [event], next.uniqueIdentifier.value)
  {
    assert front != [] ==> (front + [event])[0] == front[0];
    assert (front + [event])[|front|] == event;
  }

  lemma CarryStep(c: Config, random: Option<bytes>, front: seq<Event>, last: Event, d: Data)
    requires Inv(c, d) && AllCarry(c, random, front, d.sent) && NamedBy(c, front, d)
    ensures var events, next := front + [last], Done(c, d, last.reply, last.random);
            AllCarry(c, random, events, next.sent) && NamedBy(c, events, next)
  {
    var events := front + [last];
    MoreEvents(c, random, front, last, d.sent);
    if Answers(d, last.reply) {
      RecordNames(c, front, last, d);
      NextCarries(c, random, events, Record(d, ResultOf(d.sent[|d.sent| - 1], last.reply).value), last.random);
    } else {
      assert Done(c, d, last.reply, last.random) == Fail(d);
      assert front != [] ==> events[0] == front[0];
    }
  }

  /** In every run, all requests carry what they should, in particular no secret but the random one and no
      id but the key's. */
  lemma {:induction false} RequestsCarry(c: Config, random: Option<bytes>, events: seq<Event>)
    ensures AllCarry(c, random, events, Run(c, random, events).sent)
    ensures NamedBy(c, events, Run(c, random, events))
  {
    if events == [] {
      FirstCarries(c, random);
    } else {
      var front, last := events[..|events| - 1], events[|events| - 1];
      RequestsCarry(c, random, front);
      RunInv(c, random, front);
      CarryStep(c, random, front, last, Run(c, random, front));
      assert events == front + [last];
    }
  }

  /** A context that is not delegated and has no key of the user's registers the random secret first. */
  lemma RegistersRandomSecret(c: Config, secret: bytes, events: seq<Event>)
    requires Configured(c) && !c.delegated && c.userKeyId.None?
    ensures var sent := Run(c, Some(secret), events).sent;
            sent != [] && sent[0] == Register(secret) && forall k :: 1 <= k < |sent| ==> !sent[k].Register?
  {
    FirstRequestStays(c, Some(secret), events);
    RequestsCarry(c, Some(secret), events);
  }

  lemma StartExtends(c: Config, d: Data, random: Option<bytes>)
    ensures d.sent <= Start(c, d, random).sent
  {
  }

  lemma DoneExtends(c: Config, d: Data, event: Event)
    ensures d.sent <= Done(c, d, event.reply, event.random).sent
  {
    if Answers(d, event.reply) {
      StartExtends(c, Record(d, ResultOf(d.sent[|d.sent| - 1], event.reply).value), event.random);
    }
  }

  lemma {:induction false} FirstRequestStays(c: Config, random: Option<bytes>, events: seq<Event>)
    ensures Run(c, random, []).sent <= Run(c, random, events).sent
  {
    if events != [] {
      var front, last := events[..|events| - 1], events[|events| - 1];
      FirstRequestStays(c, random, front);
      DoneExtends(c, Run(c, random, front), last);
    }
  }

  /** A context becomes ready with the last reply: the encrypted key is the initialization vector and the
      ciphertext in it, or the data key wrapped under the secret in it. */
  lemma ReadyHoldsLastReply(c: Config, random: Option<bytes>, events: seq<Event>)
    requires Run(c, random, events).state == Ready
    ensures events != []
    ensures var d, reply := Run(c, random, events), events[|events| - 1].reply;
            && d.keyId.Some? && IsKeyName(c, events, d.keyId.value)
            && if c.delegated then
                 reply.CipherText? && |reply.iv| == 16 && d.encrypted == reply.iv + reply.data
               else
                 reply.SecretData? && |reply.data| == 96 && c.wrap(reply.data, c.dek) == Some(d.encrypted)
                 && |d.encrypted| == 160
  {
    RunInv(c, random, events);
    RequestsCarry(c, random, events);
    if events != [] {
      var front := events[..|events| - 1];
      RunInv(c, random, front);
    }
  }

  /** The whole exchange with the server's replies id, activated and the last one. */
  ghost function Exchange(c: Config, random: Option<bytes>, id: string, activated: string, last: Reply): Data {
    var named, active := Event(UniqueIdentifier(id), None), Event(UniqueIdentifier(activated), None);
    var done := Event(last, None);
    Run(c, random, if c.userKeyId.Some? then [done] else [named, active, done])
  }

  lemma ExchangeSteps(c: Config, random: Option<bytes>, id: string, activated: string, last: Reply)
    ensures var start := Start(c, Initial(c), random);
            var active := Done(c, Done(c, start, UniqueIdentifier(id), None), UniqueIdentifier(activated), None);
            Exchange(c, random, id, activated, last)
            == Done(c, if c.userKeyId.Some? then start else active, last, None)
  {
    var named, active := Event(UniqueIdentifier(id), None), Event(UniqueIdentifier(activated), None);
    var done := Event(last, None);
    assert [done][..0] == [] && [named, active, done][..2] == [named, active];
    assert [named, active][..1] == [named] && [named][..0] == [];
    assert Run(c, random, []) == Start(c, Initial(c), random);
    assert Run(c, random, [named]) == Done(c, Run(c, random, []), named.reply, None);
    assert Run(c, random, [named, active]) == Done(c, Run(c, random, [named]), active.reply, None);
  }

  /** The context that is about to send its last request: nothing but the key's id is recorded. */
  function Activated(c: Config, name: string, before: seq<Request>): Data {
    Data(NeedKms, c.userKeyId, Some(name), true, [], [],
         before + [if c.delegated then Encrypt(name, c.dek) else Get(name)])
  }

  lemma StartsWithUserKey(c: Config, random: Option<bytes>)
    requires Configured(c) && c.userKeyId.Some?
    ensures Start(c, Initial(c), random) == Activated(c, c.userKeyId.value, [])
  {
  }

  lemma NamesAndActivates(c: Config, random: Option<bytes>, first: Request, id: string, activated: string)
    requires Configured(c) && c.userKeyId.None?
    requires first == if c.delegated then Create else Register(if random.Some? then random.value else [])
    requires !c.delegated ==> random.Some?
    ensures var start, name := Start(c, Initial(c), random), CString(id);
            var named := Done(c, start, UniqueIdentifier(id), None);
            && named == Data(NeedKms, None, Some(name), false, [], [], [first, Activate(name)])
            && Done(c, named, UniqueIdentifier(activated), None) == Activated(c, name, [first, Activate(name)])
  {
    assert Start(c, Initial(c), random) == Data(NeedKms, None, None, false, [], [], [first]);
    var named := Data(NeedKms, None, Some(CString(id)), false, [], [], [first, Activate(CString(id))]);
    assert Done(c, named, UniqueIdentifier(activated), None) == Activated(c, CString(id), named.sent);
  }

  lemma LastReplyWraps(c: Config, name: string, before: seq<Request>, secret: bytes, wrapped: bytes)
    requires Configured(c) && !c.delegated && (c.userKeyId.Some? ==> c.userKeyId.value == name)
    requires |c.dek| == KEY_LEN == |secret| && c.wrap(secret, c.dek) == Some(wrapped) && |wrapped| == WRAPPED_LEN
    ensures Done(c, Activated(c, name, before), SecretData(secret), None) ==
            Data(Ready, Some(name), Some(name), true, secret, wrapped, before + [Get(name)])
  {
  }

  lemma LastReplyEncrypts(c: Config, name: string, before: seq<Request>, iv: bytes, ciphertext: bytes)
    requires Configured(c) && c.delegated && (c.userKeyId.Some? ==> c.userKeyId.value == name)
    requires |iv| == IV_LEN
    ensures Done(c, Activated(c, name, before), CipherText(iv, ciphertext), None) ==
            Data(Ready, Some(name), Some(name), true, [], iv + ciphertext, before + [Encrypt(name, c.dek)])
  {
  }

  /** Registering a random secret, activating it, and wrapping the data key under what the server returns. */
  lemma LocalExchange(c: Config, random: bytes, id: string, activated: string, secret: bytes, wrapped: bytes)
    requires c.credentials.Some? && (c.endpoint.Some? || c.credentials.value.Some?) && !c.delegated
    requires |c.dek| == 96 == |secret| && c.wrap(secret, c.dek) == Some(wrapped) && |wrapped| == 160
    ensures var d := Exchange(c, Some(random), id, activated, SecretData(secret));
            var name := if c.userKeyId.Some? then c.userKeyId.value else CString(id);
            && d.state == Ready && d.keyId == Some(name) && d.encrypted == wrapped
            && d.sent == (if c.userKeyId.Some? then [] else [Register(random), Activate(name)]) + [Get(name)]
  {
    ExchangeSteps(c, Some(random), id, activated, SecretData(secret));
    if c.userKeyId.Some? {
      StartsWithUserKey(c, Some(random));
      LastReplyWraps(c, c.userKeyId.value, [], secret, wrapped);
    } else {
      LastReplyWraps(c, CString(id), [Register(random), Activate(CString(id))], secret, wrapped);
      NamesAndActivates(c, Some(random), Register(random), id, activated);
    }
  }

  /** Creating a key on the server, activating it, and encrypting the data key there. */
  lemma DelegatedExchange(
    c: Config, random: Option<bytes>, id: string, activated: string, iv: bytes, ciphertext: bytes)
    requires c.credentials.Some? && (c.endpoint.Some? || c.credentials.value.Some?) && c.delegated
    requires |iv| == 16
    ensures var d := Exchange(c, random, id, activated, CipherText(iv, ciphertext));
            var name := if c.userKeyId.Some? then c.userKeyId.value else CString(id);
            && d.state == Ready && d.keyId == Some(name) && d.encrypted == iv + ciphertext
            && d.sent == (if c.userKeyId.Some? then [] else [Create, Activate(name)]) + [Encrypt(name, c.dek)]
  {
    ExchangeSteps(c, random, id, activated, CipherText(iv, ciphertext));
    if c.userKeyId.Some? {
      StartsWithUserKey(c, random);
      LastReplyEncrypts(c, c.userKeyId.value, [], iv, ciphertext);
    } else {
      LastReplyEncrypts(c, CString(id), [Create, Activate(CString(id))], iv, ciphertext);
      NamesAndActivates(c, random, Create, id, activated);
    }
  }

  // ----- progress

  predicate WrapFails(c: Config, d: Data) {
    !c.delegated && WrapKey(c, d.secretData).None?
  }

  /** A reply that answers the outstanding request moves the exchange one place along the plan, unless it
      is an empty secret, which makes the context repeat its Get request. */
  lemma AdvancesUnlessEmptySecret(c: Config, d: Data, reply: Reply, random: Option<bytes>)
    requires Waiting(c, d) && Answers(d, reply)
    ensures var next, p := Done(c, d, reply, random), Position(c, d);
            if EmptySecret(reply) then
              next == d.(sent := d.sent + [d.sent[|d.sent| - 1]]) && Planned(c, p) == GET && p == PlanLength(c) - 1
            else
              && Position(c, next) == p + 1
              && (p + 1 < PlanLength(c) ==>
                    next.state == NeedKms && |next.sent| == |d.sent| + 1 && next.sent[..|d.sent|] == d.sent)
              && (p + 1 == PlanLength(c) ==>
                    next.sent == d.sent && next.state == if WrapFails(c, next) then Failed else Ready)
  {
  }

  /** The exchange can begin: it is configured, and the source of randomness works if it is needed. */
  predicate CanStart(c: Config, random: Option<bytes>) {
    Configured(c) && (c.userKeyId.Some? || c.delegated || random.Some?)
  }

  /** Every reply answers the request outstanding when it arrives. */
  ghost predicate Answered(c: Config, random: Option<bytes>, events: seq<Event>) {
    forall k :: 0 <= k < |events| ==> Answers(Run(c, random, events[..k]), events[k].reply)
  }

  /** The number of empty secrets among the replies. */
  function EmptySecrets(events: seq<Event>): (n: nat)
    ensures n <= |events|
    ensures n == 0 <==> forall k :: 0 <= k < |events| ==> !EmptySecret(events[k].reply)
  {
    if events == [] then 0
    else
      EmptySecrets(events[..|events| - 1]) + if EmptySecret(events[|events| - 1].reply) then 1 else 0
  }

  /** The context after replies of which `empties` were empty secrets and `full` were not: it has sent the
      plan in order, with its Get repeated once for every empty secret, and it is ready after one full reply
      for each place of the plan, unless wrapping the data key fails. */
  ghost predicate Trace(c: Config, d: Data, full: nat, empties: nat) {
    && full <= PlanLength(c) && Position(c, d) == full
    && |d.sent| == Min(full + 1, PlanLength(c)) + empties
    && (forall k :: 0 <= k < |d.sent| ==> KindOf(d.sent[k]) == Planned(c, k))
    && d.state == if full < PlanLength(c) then NeedKms else if WrapFails(c, d) then Failed else Ready
  }

  lemma TraceStarts(c: Config, random: Option<bytes>)
    requires CanStart(c, random)
    ensures Trace(c, Start(c, Initial(c), random), 0, 0)
  {
  }

  lemma TraceRepeats(c: Config, d: Data, full: nat, empties: nat, reply: Reply, random: Option<bytes>)
    requires Waiting(c, d) && Answers(d, reply) && EmptySecret(reply) && Trace(c, d, full, empties)
    ensures Trace(c, Done(c, d, reply, random), full, empties + 1)
  {
    AdvancesUnlessEmptySecret(c, d, reply, random);
  }

  lemma TraceAdvances(c: Config, d: Data, full: nat, empties: nat, reply: Reply, random: Option<bytes>)
    requires Waiting(c, d) && Answers(d, reply) && !EmptySecret(reply) && Trace(c, d, full, empties)
    ensures Trace(c, Done(c, d, reply, random), full + 1, empties)
  {
    AdvancesUnlessEmptySecret(c, d, reply, random);
    DoneKeepsInv(c, d, reply, random);
    assert KindOf(d.sent[|d.sent| - 1]) == Planned(c, |d.sent| - 1) == Planned(c, full);
  }

  lemma TraceStep(c: Config, d: Data, full: nat, empties: nat, event: Event)
    requires Waiting(c, d) && Answers(d, event.reply) && Trace(c, d, full, empties)
    ensures var next := Done(c, d, event.reply, event.random);
            if EmptySecret(event.reply) then Trace(c, next, full, empties + 1) else Trace(c, next, full + 1, empties)
  {
    if EmptySecret(event.reply) {
      TraceRepeats(c, d, full, empties, event.reply, event.random);
    } else {
      TraceAdvances(c, d, full, empties, event.reply, event.random);
    }
  }

  lemma AnsweredFront(c: Config, random: Option<bytes>, events: seq<Event>)
    requires Answered(c, random, events) && events != []
    ensures var front, last := events[..|events| - 1], events[|events| - 1];
            Answered(c, random, front) && Answers(Run(c, random, front), last.reply)
  {
    var front := events[..|events| - 1];
    forall k | 0 <= k < |front|
      ensures Answers(Run(c, random, front[..k]), front[k].reply)
    {
      assert front[..k] == events[..k];
    }
  }

  /** The trace of a run, counted from its replies. */
  ghost predicate RunTrace(c: Config, random: Option<bytes>, events: seq<Event>) {
    Trace(c, Run(c, random, events), |events| - EmptySecrets(events), EmptySecrets(events))
  }

  lemma RunTraceStep(c: Config, random: Option<bytes>, events: seq<Event>)
    requires events != []
    requires var d := Run(c, random, events[..|events| - 1]); Waiting(c, d) && Answers(d, events[|events| - 1].reply)
    requires RunTrace(c, random, events[..|events| - 1])
    ensures RunTrace(c, random, events)
  {
    var front := events[..|events| - 1];
    TraceStep(c, Run(c, random, front), |front| - EmptySecrets(front), EmptySecrets(front), events[|events| - 1]);
  }

  /** Every run whose replies answer the requests follows the plan. */
  lemma {:induction false} AnsweredRunFollowsPlan(c: Config, random: Option<bytes>, events: seq<Event>)
    requires CanStart(c, random) && Answered(c, random, events)
    ensures RunTrace(c, random, events)
  {
    if events == [] {
      TraceStarts(c, random);
    } else {
      var front := events[..|events| - 1];
      AnsweredFront(c, random, events);
      AnsweredRunFollowsPlan(c, random, front);
      RunInv(c, random, front);
      RunTraceStep(c, random, events);
    }
  }

  /** The requests of an undisturbed exchange: a suffix of Register, Activate, Get or of Create, Activate,
      Encrypt. */
  function Sequence(c: Config): seq<Kind> {
    var all := if c.delegated then [CREATE, ACTIVATE, ENCRYPT] else [REGISTER, ACTIVATE, GET];
    if c.userKeyId.Some? then all[2..] else all
  }

  function Kinds(rs: seq<Request>): seq<Kind> {
    seq(|rs|, i requires 0 <= i < |rs| => KindOf(rs[i]))
  }

  /** With replies that are not empty secrets, the context sends exactly this sequence, one request after
      another, and after at most three replies it is ready or wrapping the data key has failed. */
  lemma ReadyAfterPlan(c: Config, random: Option<bytes>, events: seq<Event>)
    requires CanStart(c, random) && Answered(c, random, events) && EmptySecrets(events) == 0
    ensures var d, n := Run(c, random, events), |Sequence(c)|;
            && |events| <= n <= 3
            && Kinds(d.sent) == Sequence(c)[..Min(|events| + 1, n)]
            && (|events| < n ==> d.state == NeedKms)
            && (|events| == n ==> d.state == if WrapFails(c, d) then Failed else Ready)
  {
    AnsweredRunFollowsPlan(c, random, events);
    var kinds := Kinds(Run(c, random, events).sent);
    forall k | 0 <= k < |kinds|
      ensures kinds[k] == Sequence(c)[k]
    {
      assert kinds[k] == Planned(c, k);
    }
  }
}
