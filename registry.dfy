// The reply registry: pending calls keyed by serial, and what
// _MessageDispatch does with an incoming message.
module ReplyRegistry {
  import opened Protocol

  /** The completion callback a pending call registered. The source stores
      closures; these are the three it creates, named by what they close over. */
  datatype Callback =
    | HelloDone
    | IntrospectDone(dest: string, path: string)
    | MethodDone(member: string)

  /** methodCallReplies */
  type Registry = map<uint32, Callback>

  /** One firing of a callback, with the reply it was given. */
  datatype Delivery = Delivery(callback: Callback, reply: Message)

  /** _SendSync's registration: the entry under `serial` is set, replacing
      any earlier one, and no other key changes. */
  function Register(reg: Registry, serial: uint32, callback: Callback): (r: Registry)
    ensures serial in r && r[serial] == callback
    ensures r.Keys == reg.Keys + {serial}
    ensures forall s :: s in reg && s != serial ==> r[s] == reg[s]
  {
    reg[serial := callback]
  }

  /** A method return whose reply serial has a pending entry. */
  predicate Matches(reg: Registry, m: Message) {
    m.kind == MethodReturn && m.replySerial in reg
  }

  /** _MessageDispatch: the registry afterwards and the callback fired, if any.
      Only entries are removed, never changed; a firing is the entry the
      reply's serial names, handed that reply, and removes just that entry;
      when nothing fires the registry is as it was. */
  function Dispatch(reg: Registry, msg: Option<Message>): (r: (Registry, Option<Delivery>))
    ensures r.0.Keys <= reg.Keys && forall s :: s in r.0 ==> r.0[s] == reg[s]
    ensures r.1.Some? ==>
      var m := r.1.value.reply;
      && msg == Some(m) && Matches(reg, m)
      && r.1.value.callback == reg[m.replySerial]
      && r.0.Keys == reg.Keys - {m.replySerial}
    ensures r.1.None? ==> r.0 == reg
  {
    match msg
    case Some(m) =>
      if Matches(reg, m) then (reg - {m.replySerial}, Some(Delivery(reg[m.replySerial], m)))
      else (reg, None)
    case None => (reg, None)
  }

  function Fired(f: Option<Delivery>): seq<Delivery> {
    if f.Some? then [f.value] else []
  }

  /** A matching method return fires its entry with that reply, removes it
      and leaves every other entry as it was; the same reply again fires
      nothing and changes nothing. */
  lemma DispatchFiresOnce(reg: Registry, m: Message)
    requires Matches(reg, m)
    ensures var (after, fired) := Dispatch(reg, Some(m));
      && fired == Some(Delivery(reg[m.replySerial], m))
      && after.Keys == reg.Keys - {m.replySerial}
      && (forall s :: s in after ==> after[s] == reg[s])
      && Dispatch(after, Some(m)) == (after, None)
  {
  }

  /** Nothing but a matching method return touches the registry: a nil
      message, an unregistered reply serial, an error or any other type
      leaves it unchanged and fires nothing. */
  lemma DispatchIgnores(reg: Registry, msg: Option<Message>)
    ensures Dispatch(reg, msg).1.None? <==> !(msg.Some? && Matches(reg, msg.value))
    ensures Dispatch(reg, msg).1.None? ==> Dispatch(reg, msg).0 == reg
  {
  }

  /** The dispatcher applied to messages in arrival order: entries are only
      ever removed, never changed, and each message fires at most one
      callback. */
  function DispatchAll(reg: Registry, msgs: seq<Message>): (r: (Registry, seq<Delivery>))
    ensures r.0.Keys <= reg.Keys && forall s :: s in r.0 ==> r.0[s] == reg[s]
    ensures |r.1| <= |msgs|
    decreases |msgs|
  {
    if msgs == [] then (reg, [])
    else
      var prior := DispatchAll(reg, msgs[..|msgs| - 1]);
      var last := Dispatch(prior.0, Some(msgs[|msgs| - 1]));
      (last.0, prior.1 + Fired(last.1))
  }

  /** Dispatching one more message after a run, with the log of what was
      fired before the run in front. */
  lemma DispatchAllSnoc(reg: Registry, msgs: seq<Message>, m: Message, log: seq<Delivery>)
    ensures DispatchAll(reg, msgs + [m]).0 == Dispatch(DispatchAll(reg, msgs).0, Some(m)).0
    ensures log + DispatchAll(reg, msgs + [m]).1 ==
      (log + DispatchAll(reg, msgs).1) + Fired(Dispatch(DispatchAll(reg, msgs).0, Some(m)).1)
  {
    assert (msgs + [m])[..|msgs|] == msgs;
  }

  /** Dispatching two runs of messages one after the other is dispatching both. */
  lemma {:induction false} DispatchAllAppend(reg: Registry, a: seq<Message>, b: seq<Message>)
    ensures var (r1, d1) := DispatchAll(reg, a);
      var (r2, d2) := DispatchAll(r1, b);
      DispatchAll(reg, a + b) == (r2, d1 + d2)
    decreases |b|
  {
    if b == [] {
      assert a + b == a;
      var (r1, d1) := DispatchAll(reg, a);
      assert d1 + [] == d1;
    } else {
      var b' := b[..|b| - 1];
      var last := b[|b| - 1];
      assert b == b' + [last];
      assert a + b == (a + b') + [last];
      DispatchAllAppend(reg, a, b');
      var (r1, d1) := DispatchAll(reg, a);
      DispatchAllSnoc(r1, b', last, d1);
      DispatchAllSnoc(reg, a + b', last, []);
    }
  }

  /** DispatchAllAppend, for a caller that already holds the first run's result. */
  lemma DispatchAllThen(reg: Registry, a: seq<Message>, b: seq<Message>, ds: seq<Delivery>)
    ensures DispatchAll(reg, a + b).0 == DispatchAll(DispatchAll(reg, a).0, b).0
    ensures ds + DispatchAll(reg, a + b).1 ==
      (ds + DispatchAll(reg, a).1) + DispatchAll(DispatchAll(reg, a).0, b).1
  {
    DispatchAllAppend(reg, a, b);
  }

  /** The serials delivered to. */
  function DeliveredSerials(ds: seq<Delivery>): set<uint32> {
    set i | 0 <= i < |ds| :: ds[i].reply.replySerial
  }

  /** A delivery appended adds its serial to those delivered to. */
  lemma DeliveredSnoc(ds: seq<Delivery>, d: Delivery)
    ensures DeliveredSerials(ds + [d]) == DeliveredSerials(ds) + {d.reply.replySerial}
  {
    var ds' := ds + [d];
    forall x ensures x in DeliveredSerials(ds') <==> x in DeliveredSerials(ds) || x == d.reply.replySerial {
      if x == d.reply.replySerial {
        assert ds'[|ds|].reply.replySerial == x;
      }
      if x in DeliveredSerials(ds') {
        var i :| 0 <= i < |ds'| && ds'[i].reply.replySerial == x;
        if i < |ds| {
          assert ds[i].reply.replySerial == x;
        }
      }
      if x in DeliveredSerials(ds) {
        var i :| 0 <= i < |ds| && ds[i].reply.replySerial == x;
        assert ds'[i].reply.replySerial == x;
      }
    }
  }

  /** The account a run of dispatches keeps against the registry it started
      from: each delivery fired the entry registered under its reply's
      serial, no serial was delivered to twice, and exactly the delivered
      entries are gone while the others are untouched. */
  ghost predicate Accounted(reg: Registry, after: Registry, ds: seq<Delivery>) {
    && (forall i :: 0 <= i < |ds| ==>
          Matches(reg, ds[i].reply) && ds[i].callback == reg[ds[i].reply.replySerial])
    && (forall i, j :: 0 <= i < j < |ds| ==> ds[i].reply.replySerial != ds[j].reply.replySerial)
    && after.Keys == reg.Keys - DeliveredSerials(ds)
    && (forall s :: s in after ==> after[s] == reg[s])
  }

  /** One more dispatch keeps the account. */
  lemma AccountedStep(reg: Registry, r: Registry, ds: seq<Delivery>, m: Message)
    requires Accounted(reg, r, ds)
    ensures var (r', fired) := Dispatch(r, Some(m));
      Accounted(reg, r', ds + Fired(fired))
  {
    var (r', fired) := Dispatch(r, Some(m));
    if fired.Some? {
      var d := Delivery(r[m.replySerial], m);
      assert ds + Fired(fired) == ds + [d];
      DeliveredSnoc(ds, d);
    } else {
      assert ds + Fired(fired) == ds;
    }
  }

  /** Every run of dispatches keeps the account, by induction on the run. */
  lemma {:induction false} AccountedAll(reg: Registry, msgs: seq<Message>)
    ensures Accounted(reg, DispatchAll(reg, msgs).0, DispatchAll(reg, msgs).1)
    decreases |msgs|
  {
    if msgs == [] {
      assert DeliveredSerials([]) == {};
    } else {
      var prefix := msgs[..|msgs| - 1];
      AccountedAll(reg, prefix);
      var prior := DispatchAll(reg, prefix);
      AccountedStep(reg, prior.0, prior.1, msgs[|msgs| - 1]);
    }
  }

  /** Over any run of incoming messages with no new registrations, each
      callback fired is the one registered under its reply's serial, no
      serial is delivered to twice, and exactly the delivered entries are
      gone from the registry while the others are untouched. */
  lemma DispatchAllAtMostOnce(reg: Registry, msgs: seq<Message>)
    ensures var (after, ds) := DispatchAll(reg, msgs);
      && (forall i :: 0 <= i < |ds| ==>
            Matches(reg, ds[i].reply) && ds[i].callback == reg[ds[i].reply.replySerial])
      && (forall i, j :: 0 <= i < j < |ds| ==> ds[i].reply.replySerial != ds[j].reply.replySerial)
      && after.Keys == reg.Keys - DeliveredSerials(ds)
      && (forall s :: s in after ==> after[s] == reg[s])
  {
    AccountedAll(reg, msgs);
  }
}
