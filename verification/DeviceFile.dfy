/** devices.json as tls-proxy appends to it under its lock. */
module DeviceFile {
  import opened Text
  import opened LockedFile

  datatype Device = Device(deviceId: string, subject: string, org: string, serialHex: string, issuedAt: int,
                           expiresAt: int, revoked: bool, revokedAt: Option<int>, lastSeen: Option<int>)

  /** No file, an empty file, an array of records, or text that does not parse. */
  datatype Content = Missing | Blank | Devices(list: seq<Device>) | Garbled

  function ReadDevices(c: Content): Option<seq<Device>> {
    match c
    case Missing => Some([])
    case Blank => Some([])
    case Devices(list) => Some(list)
    case Garbled => None
  }

  predicate HasId(list: seq<Device>, id: string) {
    exists k :: 0 <= k < |list| && list[k].deviceId == id
  }

  ghost predicate UniqueIds(list: seq<Device>) {
    forall i, j :: 0 <= i < j < |list| ==> list[i].deviceId != list[j].deviceId
  }

  function AppendBody(c: Content, d: Device): Verdict<Content> {
    match ReadDevices(c)
    case None => Refuse
    case Some(list) => if HasId(list, d.deviceId) then Refuse else Replace(Devices(list + [d]))
  }

  /** The body of `appendDevice`: the scan, the append, and the list that is written back. */
  method AppendDevice(c: Content, d: Device) returns (v: Verdict<Content>)
    ensures v == AppendBody(c, d)
    ensures v.Refuse? <==> c.Garbled? || (c.Devices? && exists k :: 0 <= k < |c.list| && c.list[k].deviceId == d.deviceId)
    ensures !v.Refuse? ==> v == Replace(Devices(if c.Devices? then c.list + [d] else [d]))
  {
    var existing := ReadDevices(c);
    if existing == None { return Refuse; }
    for k := 0 to |existing.value|
      invariant forall j :: 0 <= j < k ==> existing.value[j].deviceId != d.deviceId
    {
      if existing.value[k].deviceId == d.deviceId { return Refuse; }
    }
    assert [] + [d] == [d];
    return Replace(Devices(existing.value + [d]));
  }

  ghost function Appends(device: nat -> Device): Bodies<Content> {
    (w: nat, c) => AppendBody(c, device(w))
  }

  ghost function Listed(c: Content): seq<Device> {
    match ReadDevices(c)
    case None => []
    case Some(list) => list
  }

  /** Every record of `front` is still where it was, everything behind it was appended by a worker, and
      every worker whose append was accepted finds its record there. */
  ghost predicate Extended(device: nat -> Device, init: Content, order: seq<nat>, c: Content) {
    && Listed(init) <= Listed(c)
    && (forall k :: |Listed(init)| <= k < |Listed(c)| ==> exists i :: 0 <= i < |order| && Listed(c)[k] == device(order[i]))
    && (UniqueIds(Listed(init)) ==> UniqueIds(Listed(c)))
  }

  lemma {:induction false} SerialExtends(device: nat -> Device, init: Content, order: seq<nat>)
    ensures Extended(device, init, order, Serial(Appends(device), init, order))
    decreases |order|
  {
    if order != [] {
      var front, w := order[..|order| - 1], order[|order| - 1];
      SerialExtends(device, init, front);
      var before := Serial(Appends(device), init, front);
      ExtendOnce(device, init, front, w, before);
      assert front + [w] == order;
    }
  }

  lemma ExtendOnce(device: nat -> Device, init: Content, order: seq<nat>, w: nat, c: Content)
    requires Extended(device, init, order, c)
    ensures Extended(device, init, order + [w], Effect(Appends(device), w, c))
  {
    var after := Effect(Appends(device), w, c);
    EffectIs(device, w, c);
    AcceptedIsNew(c, device(w));
    hide Effect, AppendBody;
    assert (order + [w])[|order|] == w;
    forall k | |Listed(init)| <= k < |Listed(after)|
      ensures exists i :: 0 <= i < |order + [w]| && Listed(after)[k] == device((order + [w])[i])
    {
      if k < |Listed(c)| {
        var i :| 0 <= i < |order| && Listed(c)[k] == device(order[i]);
        assert (order + [w])[i] == order[i];
      }
    }
  }

  lemma AcceptedIsNew(c: Content, d: Device)
    ensures AppendBody(c, d).Replace? ==> forall k :: 0 <= k < |Listed(c)| ==> Listed(c)[k].deviceId != d.deviceId
  {
  }

  lemma {:induction false} AcceptedStays(device: nat -> Device, init: Content, order: seq<nat>, i: nat, j: nat)
    requires i < j <= |order|
    requires AppendBody(Serial(Appends(device), init, order[..i]), device(order[i])).Replace?
    ensures device(order[i]) in Listed(Serial(Appends(device), init, order[..j]))
    decreases j
  {
    hide AppendBody, Listed, Effect;
    SerialStep(device, init, order, j);
    var before := Serial(Appends(device), init, order[..j - 1]);
    if j > i + 1 {
      AcceptedStays(device, init, order, i, j - 1);
      ListedStays(device, before, order[j - 1], device(order[i]));
    } else {
      AcceptedIsListed(device, before, order[i]);
    }
  }

  lemma SerialStep(device: nat -> Device, init: Content, order: seq<nat>, j: nat)
    requires 0 < j <= |order|
    ensures Serial(Appends(device), init, order[..j]) ==
            Effect(Appends(device), order[j - 1], Serial(Appends(device), init, order[..j - 1]))
  {
    hide Effect;
    assert order[..j][..j - 1] == order[..j - 1] && order[..j][j - 1] == order[j - 1];
  }

  lemma EffectIs(device: nat -> Device, w: nat, c: Content)
    ensures Listed(Effect(Appends(device), w, c)) ==
            if AppendBody(c, device(w)).Replace? then Listed(c) + [device(w)] else Listed(c)
  {
    assert Appends(device)(w, c) == AppendBody(c, device(w));
  }

  lemma ListedStays(device: nat -> Device, c: Content, w: nat, d: Device)
    requires d in Listed(c)
    ensures d in Listed(Effect(Appends(device), w, c))
  {
    hide Effect, Listed;
    EffectIs(device, w, c);
  }

  lemma AcceptedIsListed(device: nat -> Device, c: Content, w: nat)
    requires AppendBody(c, device(w)).Replace?
    ensures device(w) in Listed(Effect(Appends(device), w, c))
  {
    hide Effect, Listed, AppendBody;
    EffectIs(device, w, c);
    assert (Listed(c) + [device(w)])[|Listed(c)|] == device(w);
  }

  /** No lost appends: whatever the interleaving, the timeouts and the crashes, the records that were there
      stay first and unchanged, every enrollment that was told success is in the file, nothing else is, and
      device IDs stay unique. */
  lemma NoLostAppends(device: nat -> Device, init: Content, s: State<Content>, events: seq<Event>)
    requires Initial(s, init) && Run(Appends(device), s, events).Some?
    ensures var t := Run(Appends(device), s, events).value;
            && Extended(device, init, t.decided, t.file)
            && forall w :: w in t.phases && t.phases[w] == Done(Stored) ==> device(w) in Listed(t.file)
  {
    hide Run, Extended;
    Serialisable(Appends(device), init, s, events);
    var t := Run(Appends(device), s, events).value;
    SerialExtends(device, init, t.decided);
    forall w | w in t.phases && t.phases[w] == Done(Stored) ensures device(w) in Listed(t.file) {
      StoredIsListed(device, init, t.decided, w);
    }
  }

  lemma StoredIsListed(device: nat -> Device, init: Content, order: seq<nat>, w: nat)
    requires Told(Appends(device), init, order, w, Stored)
    ensures device(w) in Listed(Serial(Appends(device), init, order))
  {
    hide Serial;
    var body := Appends(device);
    var i :| 0 <= i < |order| && order[i] == w && Stored == OutcomeOf(body(w, Serial(body, init, order[..i])));
    AcceptedStays(device, init, order, i, |order|);
    assert order[..|order|] == order;
  }
}
