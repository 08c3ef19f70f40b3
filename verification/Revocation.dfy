/** Three stores that must agree on who is revoked: the flags in webui's devices.json, webui's revocation
    list, and the set of keys that tls-proxy loads from that list. */
module Revocation {
  import opened Text
  import opened SerialHex
  import DeviceFile
  import LockedFile

  datatype Entry = Entry(serialHex: string, subject: string, revokedAt: int)

  /** revoked-serials.json: no file, an empty file, a list, or text that does not parse. */
  datatype CrlFile = Missing | Blank | Listed(entries: seq<Entry>) | Garbled

  function ReadCrl(c: CrlFile): Option<seq<Entry>> {
    match c
    case Missing => Some([])
    case Blank => Some([])
    case Listed(entries) => Some(entries)
    case Garbled => None
  }

  // ---- webui's revocation list ----

  /** The list in memory and the file behind it. */
  datatype Crl = Crl(memory: seq<Entry>, file: CrlFile)

  datatype CrlResult = Done | EmptySerial | NotSaved

  function FirstEntry(es: seq<Entry>, key: string, from: nat): (r: nat)
    requires from <= |es|
    ensures from <= r <= |es| && (forall k :: from <= k < r ==> es[k].serialHex != key)
    ensures r < |es| ==> es[r].serialHex == key
    decreases |es| - from
  {
    if from == |es| || es[from].serialHex == key then from else FirstEntry(es, key, from + 1)
  }

  function Written(c: Crl, next: seq<Entry>, writable: bool): (Crl, CrlResult) {
    if writable then (Crl(next, Listed(next)), Done) else (Crl(next, c.file), NotSaved)
  }

  function AddTo(c: Crl, serial: string, subject: string, now: int, writable: bool): (Crl, CrlResult) {
    var key := WebNormalize(serial);
    if key == "" then (c, EmptySerial)
    else if FirstEntry(c.memory, key, 0) < |c.memory| then (c, Done)
    else Written(c, c.memory + [Entry(key, subject, now)], writable)
  }

  function RemoveFrom(c: Crl, serial: string, writable: bool): (Crl, CrlResult) {
    var key := WebNormalize(serial);
    if key == "" then (c, EmptySerial)
    else
      var i := FirstEntry(c.memory, key, 0);
      if i == |c.memory| then (c, Done) else Written(c, c.memory[..i] + c.memory[i + 1..], writable)
  }

  /** Reading the list again: only a file that holds a list replaces the one in memory. */
  function Reloaded(c: Crl, readable: bool): Crl {
    if readable && c.file.Listed? then c.(memory := c.file.entries) else c
  }

  /** A file that is replaced as a whole. */
  class File<T> {
    var content: T

    constructor (c: T)
      ensures content == c
    {
      content := c;
    }
  }

  class CrlStore {
    const disk: File<CrlFile>
    var entries: seq<Entry>

    constructor (disk: File<CrlFile>)
      ensures this.disk == disk && entries == []
    {
      this.disk := disk;
      entries := [];
    }

    ghost function State(): Crl
      reads this, disk
    {
      Crl(entries, disk.content)
    }

    /** A missing or an empty file leaves the list as it is. */
    method Load(readable: bool) returns (ok: bool)
      modifies this`entries
      ensures ok <==> readable && !disk.content.Garbled? && !disk.content.Missing?
      ensures entries == if readable && disk.content.Listed? then disk.content.entries else old(entries)
    {
      if !readable { return false; }
      match disk.content
      case Missing => return false;
      case Blank => return true;
      case Garbled => return false;
      case Listed(es) =>
        entries := es;
        return true;
    }

    /** `Reload`, for the page that lists revoked serials; a missing file is no error. */
    method Reload(readable: bool) returns (ok: bool)
      modifies this`entries
      ensures ok <==> readable && !disk.content.Garbled?
      ensures State() == Reloaded(old(State()), readable)
    {
      var _ := Load(readable);
      return readable && !disk.content.Garbled?;
    }

    method Save(writable: bool) returns (r: CrlResult)
      modifies disk
      ensures (State(), r) == Written(old(State()), entries, writable)
    {
      if !writable { return NotSaved; }
      disk.content := Listed(entries);
      return Done;
    }

    method Add(serial: string, subject: string, now: int, writable: bool) returns (r: CrlResult)
      modifies this`entries, disk
      ensures (State(), r) == AddTo(old(State()), serial, subject, now, writable)
      ensures var key := WebNormalize(serial);
              if key == "" || key in Serials(old(entries)) then
                && entries == old(entries) && disk.content == old(disk.content)
                && r == if key == "" then EmptySerial else CrlResult.Done
              else
                && entries == old(entries) + [Entry(key, subject, now)]
                && disk.content == (if writable then Listed(entries) else old(disk.content))
                && r == if writable then CrlResult.Done else NotSaved
    {
      hide WebNormalize;
      var key := WebNormalize(serial);
      if key == "" { return EmptySerial; }
      for k := 0 to |entries|
        invariant State() == old(State()) && k <= FirstEntry(entries, key, 0)
      {
        if entries[k].serialHex == key { return Done; }
      }
      entries := entries + [Entry(key, subject, now)];
      r := Save(writable);
    }

    method Remove(serial: string, writable: bool) returns (r: CrlResult)
      modifies this`entries, disk
      ensures (State(), r) == RemoveFrom(old(State()), serial, writable)
      ensures var key := WebNormalize(serial);
              if key == "" || key !in Serials(old(entries)) then
                && entries == old(entries) && disk.content == old(disk.content)
                && r == if key == "" then EmptySerial else CrlResult.Done
              else
                && FirstGone(old(entries), key, entries)
                && disk.content == (if writable then Listed(entries) else old(disk.content))
                && r == if writable then CrlResult.Done else NotSaved
    {
      hide WebNormalize;
      var key := WebNormalize(serial);
      if key == "" { return EmptySerial; }
      for k := 0 to |entries|
        invariant State() == old(State()) && k <= FirstEntry(entries, key, 0)
      {
        if entries[k].serialHex == key {
          assert FirstEntry(entries, key, 0) == k;
          CutFirst(entries, k, key);
          entries := entries[..k] + entries[k + 1..];
          r := Save(writable);
          return;
        }
      }
      return Done;
    }

    method Has(serial: string) returns (yes: bool)
      ensures yes <==> WebNormalize(serial) != "" && WebNormalize(serial) in Serials(entries)
    {
      hide WebNormalize;
      var key := WebNormalize(serial);
      if key == "" { return false; }
      for k := 0 to |entries|
        invariant forall j :: 0 <= j < k ==> entries[j].serialHex != key
      {
        if entries[k].serialHex == key { return true; }
      }
      return false;
    }
  }

  /** Without its first entry for the key. */
  ghost predicate FirstGone(es: seq<Entry>, key: string, cut: seq<Entry>) {
    exists front, e, back :: es == front + [e] + back && e.serialHex == key && key !in Serials(front) && cut == front + back
  }

  lemma CutFirst(es: seq<Entry>, k: nat, key: string)
    requires k < |es| && es[k].serialHex == key && forall j :: 0 <= j < k ==> es[j].serialHex != key
    ensures FirstGone(es, key, es[..k] + es[k + 1..])
  {
    assert es == es[..k] + [es[k]] + es[k + 1..];
    assert key !in Serials(es[..k]);
  }

  // ---- webui's device list ----

  datatype Stores = Stores(devices: DeviceFile.Content, crl: Crl)

  datatype Disk = Disk(readable: bool, devices: bool, crl: bool)

  const HEALTHY := Disk(true, true, true)

  datatype Op =
    | Enroll(device: DeviceFile.Device)
    | Revoke(id: string, now: int, listedAt: int)
    | UnRevoke(id: string)

  datatype Result = Ok | Unreadable | Unknown | Duplicate | DevicesNotSaved | CrlFailed

  function FirstDevice(list: seq<DeviceFile.Device>, id: string, from: nat): (r: nat)
    requires from <= |list|
    ensures from <= r <= |list| && (forall k :: from <= k < r ==> list[k].deviceId != id)
    ensures r < |list| ==> list[r].deviceId == id
    decreases |list| - from
  {
    if from == |list| || list[from].deviceId == id then from else FirstDevice(list, id, from + 1)
  }

  /** The record with its flag as `Revoke` (at a time) or `UnRevoke` leaves it. */
  function Marked(d: DeviceFile.Device, at: Option<int>): DeviceFile.Device {
    if d.revoked == at.Some? then d else d.(revoked := at.Some?, revokedAt := at)
  }

  function OfCrl(r: CrlResult): Result {
    if r == Done then Ok else CrlFailed
  }

  function Mark(s: Stores, id: string, at: Option<int>, listedAt: int, disk: Disk): (Stores, Result) {
    match if disk.readable then DeviceFile.ReadDevices(s.devices) else None
    case None => (s, Unreadable)
    case Some(list) =>
      var i := FirstDevice(list, id, 0);
      if i == |list| then (s, Unknown)
      else if list[i].revoked != at.Some? && !disk.devices then (s, DevicesNotSaved)
      else
        var marked := if list[i].revoked == at.Some? then s.devices
                      else DeviceFile.Devices(list[i := Marked(list[i], at)]);
        if list[i].serialHex == "" then (s.(devices := marked), Ok)
        else
          var (crl, r) := if at.Some? then AddTo(s.crl, list[i].serialHex, list[i].subject, listedAt, disk.crl)
                          else RemoveFrom(s.crl, list[i].serialHex, disk.crl);
          (Stores(marked, crl), OfCrl(r))
  }

  function AppendDevice(s: Stores, d: DeviceFile.Device, disk: Disk): (Stores, Result) {
    if !disk.readable then (s, Unreadable)
    else
      match DeviceFile.AppendBody(s.devices, d)
      case Refuse => (s, if DeviceFile.ReadDevices(s.devices).None? then Unreadable else Duplicate)
      case Keep => (s, Ok)
      case Replace(next) => if disk.devices then (s.(devices := next), Ok) else (s, DevicesNotSaved)
  }

  function Next(s: Stores, op: Op, disk: Disk): (Stores, Result) {
    match op
    case Enroll(d) => AppendDevice(s, d, disk)
    case Revoke(id, now, listedAt) => Mark(s, id, Some(now), listedAt, disk)
    case UnRevoke(id) => Mark(s, id, None, 0, disk)
  }

  /** The list with one record marked as revoked, or as not revoked. */
  function WithFlag(d: DeviceFile.Device, at: Option<int>): DeviceFile.Device {
    DeviceFile.Device(d.deviceId, d.subject, d.org, d.serialHex, d.issuedAt, d.expiresAt, at != None, at, d.lastSeen)
  }

  lemma FirstOfParts(front: seq<DeviceFile.Device>, d: DeviceFile.Device, back: seq<DeviceFile.Device>)
    requires forall k :: 0 <= k < |front| ==> front[k].deviceId != d.deviceId
    ensures FirstDevice(front + [d] + back, d.deviceId, 0) == |front|
    ensures forall x :: (front + [d] + back)[|front| := x] == front + [x] + back
  {
    var list := front + [d] + back;
    assert list[|front|] == d;
    assert forall k :: 0 <= k < |front| ==> list[k] == front[k];
  }

  /** A revocation changes the first record with that ID and no other: it is flagged, with the time, unless it was
      flagged already, and its serial goes to the list once the flag is on disk. */
  lemma RevokeExactly(s: Stores, front: seq<DeviceFile.Device>, d: DeviceFile.Device, back: seq<DeviceFile.Device>,
                      now: int, listedAt: int, disk: Disk)
    requires s.devices == DeviceFile.Devices(front + [d] + back) && disk.readable
    requires forall k :: 0 <= k < |front| ==> front[k].deviceId != d.deviceId
    ensures var (t, r) := Next(s, Revoke(d.deviceId, now, listedAt), disk);
            if d.revoked || disk.devices then
              && t.devices == DeviceFile.Devices(front + [if d.revoked then d else WithFlag(d, Some(now))] + back)
              && (if d.serialHex == "" then t.crl == s.crl && r == Ok
                  else t.crl == AddTo(s.crl, d.serialHex, d.subject, listedAt, disk.crl).0 &&
                       (r == Ok <==> AddTo(s.crl, d.serialHex, d.subject, listedAt, disk.crl).1 == CrlResult.Done))
            else t == s && r == DevicesNotSaved
  {
    FirstOfParts(front, d, back);
    hide FirstDevice, AddTo;
  }

  /** Lifting it undoes both. */
  lemma UnRevokeExactly(s: Stores, front: seq<DeviceFile.Device>, d: DeviceFile.Device, back: seq<DeviceFile.Device>, disk: Disk)
    requires s.devices == DeviceFile.Devices(front + [d] + back) && disk.readable
    requires forall k :: 0 <= k < |front| ==> front[k].deviceId != d.deviceId
    ensures var (t, r) := Next(s, UnRevoke(d.deviceId), disk);
            if !d.revoked || disk.devices then
              && t.devices == DeviceFile.Devices(front + [if d.revoked then WithFlag(d, None) else d] + back)
              && (if d.serialHex == "" then t.crl == s.crl && r == Ok
                  else t.crl == RemoveFrom(s.crl, d.serialHex, disk.crl).0 &&
                       (r == Ok <==> RemoveFrom(s.crl, d.serialHex, disk.crl).1 == CrlResult.Done))
            else t == s && r == DevicesNotSaved
  {
    FirstOfParts(front, d, back);
    hide FirstDevice, RemoveFrom;
  }

  /** Without such a record, or without a readable file, nothing changes. */
  lemma NobodyRevoked(s: Stores, id: string, at: Option<int>, listedAt: int, disk: Disk)
    requires !disk.readable || s.devices.Garbled? ||
             (s.devices.Devices? ==> forall k :: 0 <= k < |s.devices.list| ==> s.devices.list[k].deviceId != id)
    ensures var op := if at.Some? then Revoke(id, at.value, listedAt) else UnRevoke(id);
            Next(s, op, disk) == (s, if !disk.readable || s.devices.Garbled? then Unreadable else Unknown)
  {
    hide AddTo, RemoveFrom;
  }

  class DeviceStore {
    const disk: File<DeviceFile.Content>
    const crl: CrlStore
    var devices: seq<DeviceFile.Device>

    constructor (disk: File<DeviceFile.Content>, crl: CrlStore)
      ensures this.disk == disk && this.crl == crl && devices == []
    {
      this.disk, this.crl := disk, crl;
      devices := [];
    }

    ghost function State(): Stores
      reads this, disk, crl, crl.disk
    {
      Stores(disk.content, crl.State())
    }

    /** `reloadUnlocked`: every change starts from the file. */
    method Reload(readable: bool) returns (ok: bool)
      modifies this`devices
      ensures ok <==> readable && DeviceFile.ReadDevices(disk.content).Some?
      ensures devices == if ok then DeviceFile.ReadDevices(disk.content).value else old(devices)
    {
      ok := readable && DeviceFile.ReadDevices(disk.content).Some?;
      if ok { devices := DeviceFile.ReadDevices(disk.content).value; }
    }

    method Save(writable: bool)
      modifies disk
      ensures disk.content == if writable then DeviceFile.Devices(devices) else old(disk.content)
    {
      if writable { disk.content := DeviceFile.Devices(devices); }
    }

    method Add(d: DeviceFile.Device, io: Disk) returns (r: Result)
      modifies this`devices, disk
      ensures (State(), r) == Next(old(State()), Enroll(d), io)
      ensures r == Unreadable <==> !io.readable || old(disk.content).Garbled?
      ensures r == Duplicate <==>
                io.readable && old(disk.content).Devices? &&
                exists k :: 0 <= k < |old(disk.content).list| && old(disk.content).list[k].deviceId == d.deviceId
      ensures r == Ok ==> disk.content == DeviceFile.Devices(devices) && d in devices
      ensures r != Ok ==> disk.content == old(disk.content)
    {
      var ok := Reload(io.readable);
      if !ok { return Unreadable; }
      for k := 0 to |devices|
        invariant Some(devices) == DeviceFile.ReadDevices(disk.content) && State() == old(State())
        invariant forall j :: 0 <= j < k ==> devices[j].deviceId != d.deviceId
      {
        if devices[k].deviceId == d.deviceId { return Duplicate; }
      }
      devices := devices + [d];
      Save(io.devices);
      return if io.devices then Ok else DevicesNotSaved;
    }

    /** The position of a device in the list just read. */
    method Find(id: string) returns (i: nat)
      ensures i == FirstDevice(devices, id, 0)
    {
      for k := 0 to |devices|
        invariant k <= FirstDevice(devices, id, 0)
      {
        if devices[k].deviceId == id { return k; }
      }
      return |devices|;
    }

    method Revoke(id: string, now: int, listedAt: int, io: Disk) returns (r: Result)
      modifies this`devices, disk, crl`entries, crl.disk
      ensures (State(), r) == Next(old(State()), Op.Revoke(id, now, listedAt), io)
    {
      var ok := Reload(io.readable);
      if !ok { return Unreadable; }
      var i := Find(id);
      if i == |devices| { return Unknown; }
      var found := devices[i];
      if !found.revoked {
        devices := devices[i := found.(revoked := true, revokedAt := Some(now))];
        Save(io.devices);
        if !io.devices { return DevicesNotSaved; }
      }
      if found.serialHex == "" { return Ok; }
      var added := crl.Add(found.serialHex, found.subject, listedAt, io.crl);
      return OfCrl(added);
    }

    method UnRevoke(id: string, io: Disk) returns (r: Result)
      modifies this`devices, disk, crl`entries, crl.disk
      ensures (State(), r) == Next(old(State()), Op.UnRevoke(id), io)
    {
      var ok := Reload(io.readable);
      if !ok { return Unreadable; }
      var i := Find(id);
      if i == |devices| { return Unknown; }
      var found := devices[i];
      if found.revoked {
        devices := devices[i := found.(revoked := false, revokedAt := None)];
        Save(io.devices);
        if !io.devices { return DevicesNotSaved; }
      }
      if found.serialHex == "" { return Ok; }
      var removed := crl.Remove(found.serialHex, io.crl);
      return OfCrl(removed);
    }
  }

  // ---- tls-proxy's set ----

  /** The keys of a list: what is left of its serials after normalising, without the unusable ones. */
  function Keys(es: seq<Entry>): set<string> {
    set k | 0 <= k < |es| && Normalize(es[k].serialHex) != "" :: Normalize(es[k].serialHex)
  }

  /** `big.Int.Text(16)`. */
  function HexText(n: int): string {
    if n < 0 then "-" + Digits(-n, 16) else Digits(n, 16)
  }

  class RevokedStore {
    var serials: set<string>

    constructor ()
      ensures serials == {}
    {
      serials := {};
    }

    /** `reloadFrom`: a new set is built aside and swapped in; on any failure the old one stays. */
    method ReloadFrom(disk: File<CrlFile>, readable: bool) returns (ok: bool)
      modifies this
      ensures ok <==> readable && ReadCrl(disk.content).Some?
      ensures ok ==> Loaded(this, disk.content)
      ensures serials == if ok then Keys(ReadCrl(disk.content).value) else old(serials)
      ensures ok <==> readable && !disk.content.Garbled?
      ensures disk.content.Listed? && readable ==> forall n: int ::
                IsRevoked(n) <==> exists k :: 0 <= k < |disk.content.entries| &&
                                              SerialValue(disk.content.entries[k].serialHex) == Some(Magnitude(n))
      ensures readable && (disk.content.Missing? || disk.content.Blank?) ==> serials == {}
    {
      hide Normalize;
      if !readable { return false; }
      match disk.content
      case Missing =>
        serials := {};
        return true;
      case Blank =>
        serials := {};
        return true;
      case Garbled => return false;
      case Listed(es) =>
        var next: set<string> := {};
        for i := 0 to |es|
          invariant next == Keys(es[..i]) && serials == old(serials)
        {
          KeysOfFront(es, i);
          var k := Normalize(es[i].serialHex);
          if k == "" { continue; }
          next := next + {k};
        }
        assert es[..|es|] == es;
        serials := next;
        hide HexText, SerialValue, Magnitude, Keys;
        forall n: int
          ensures IsRevoked(n) <==> exists k :: 0 <= k < |es| && SerialValue(es[k].serialHex) == Some(Magnitude(n))
        {
          RevokedIffListed(es, n);
        }
        return true;
    }

    predicate IsRevoked(serial: int)
      reads this
    {
      Normalize(HexText(serial)) in serials
    }
  }

  /** The set is the one read from this content. */
  ghost predicate Loaded(store: RevokedStore, c: CrlFile)
    reads store
  {
    ReadCrl(c).Some? && store.serials == Keys(ReadCrl(c).value)
  }

  lemma KeysOfFront(es: seq<Entry>, i: nat)
    requires i < |es|
    ensures Keys(es[..i + 1]) == Keys(es[..i]) + if Normalize(es[i].serialHex) == "" then {} else {Normalize(es[i].serialHex)}
  {
    hide Normalize;
    var a, b := es[..i], es[..i + 1];
    assert b == a + [es[i]];
    forall key | key in Keys(b) ensures key in Keys(a) || key == Normalize(es[i].serialHex) {
      var k :| 0 <= k < |b| && Normalize(b[k].serialHex) == key;
      assert k < i ==> a[k] == b[k];
    }
    forall key | key in Keys(a) ensures key in Keys(b) {
      var k :| 0 <= k < |a| && Normalize(a[k].serialHex) == key;
      assert a[k] == b[k];
    }
    assert b[i] == es[i];
  }

  // ---- What the set means ----

  function Magnitude(n: int): nat {
    if n < 0 then -n else n
  }

  lemma KeyOfNumber(n: int)
    ensures Normalize(HexText(n)) == Digits(Magnitude(n), 16)
  {
    hide Normalize, Digits;
    RenderingIsKey(Magnitude(n));
    if n < 0 { SignIsDropped(Magnitude(n)); }
  }

  lemma {:induction false} DashMeansNothing(s: string)
    ensures Meaning("-" + s) == Meaning(s)
  {
    if s == "" {
      assert "-" + s == "" + ['-'];
      MeaningAppend("", '-');
    } else {
      hide Meaning;
      var front, x := s[..|s| - 1], s[|s| - 1];
      assert s == front + [x] && "-" + s == ("-" + front) + [x];
      DashMeansNothing(front);
      MeaningAppend(front, x);
      MeaningAppend("-" + front, x);
    }
  }

  /** The sign counts as a separator, so a negative serial has the key of its absolute value. */
  lemma SignIsDropped(n: nat)
    ensures Normalize("-" + Digits(n, 16)) == Digits(n, 16)
  {
    hide Normalize, Meaning;
    var d := Digits(n, 16);
    var s := "-" + d;
    DigitsHaveNo(d, 16, 'x');
    DigitsHaveNo(d, 16, 'X');
    assert !IsSpace(d[|d| - 1]) by { DigitsAreTight(d, 16); }
    assert s[0] == '-' && s[|s| - 1] == d[|d| - 1];
    TrimTight(s);
    assert Body(s) == s;
    DashMeansNothing(d);
    MeaningOfDigits(d);
    ValueOfDigits(n, 16);
    KeyIsNumber(s);
  }

  /** Whatever spellings the file uses: a certificate is refused exactly when some entry stands for its
      serial number. */
  lemma RevokedIffListed(es: seq<Entry>, n: int)
    ensures Normalize(HexText(n)) in Keys(es) <==>
            exists k :: 0 <= k < |es| && SerialValue(es[k].serialHex) == Some(Magnitude(n))
  {
    hide Normalize, SerialValue, Digits, HexText;
    KeyOfNumber(n);
    forall k | 0 <= k < |es|
      ensures Normalize(es[k].serialHex) == Digits(Magnitude(n), 16) <==> SerialValue(es[k].serialHex) == Some(Magnitude(n))
    {
      KeyStandsFor(es[k].serialHex, Magnitude(n));
    }
  }

  lemma KeyStandsFor(s: string, n: nat)
    ensures Normalize(s) == Digits(n, 16) <==> SerialValue(s) == Some(n)
  {
    hide Normalize, SerialValue, Digits;
    KeyIsNumber(s);
    ValueOfDigits(n, 16);
    if SerialValue(s).Some? { ValueOfDigits(SerialValue(s).value, 16); }
  }

  // ---- Agreement over runs in which every read and write works ----

  ghost function Serials(es: seq<Entry>): set<string> {
    set k | 0 <= k < |es| :: es[k].serialHex
  }

  ghost predicate NoDuplicates(es: seq<Entry>) {
    forall i, j :: 0 <= i < j < |es| ==> es[i].serialHex != es[j].serialHex
  }

  ghost function Flagged(list: seq<DeviceFile.Device>): set<string> {
    set k | 0 <= k < |list| && list[k].revoked :: WebNormalize(list[k].serialHex)
  }

  /** Every serial stands for a number, and no two devices share one. */
  ghost predicate Registered(list: seq<DeviceFile.Device>) {
    && DeviceFile.UniqueIds(list)
    && (forall i :: 0 <= i < |list| ==> Normalize(list[i].serialHex) != "")
    && (forall i, j :: 0 <= i < j < |list| ==> Normalize(list[i].serialHex) != Normalize(list[j].serialHex))
  }

  ghost predicate Agreed(s: Stores) {
    && DeviceFile.ReadDevices(s.devices).Some?
    && Registered(DeviceFile.Listed(s.devices))
    && ReadCrl(s.crl.file) == Some(s.crl.memory)
    && NoDuplicates(s.crl.memory)
    && Serials(s.crl.memory) == Flagged(DeviceFile.Listed(s.devices))
  }

  /** An enrollment brings a new device with a serial that no other device has, whatever its spelling. */
  ghost predicate FreshFor(s: Stores, op: Op) {
    op.Enroll? ==>
      && !op.device.revoked && Normalize(op.device.serialHex) != ""
      && forall k :: 0 <= k < |DeviceFile.Listed(s.devices)| ==>
           Normalize(DeviceFile.Listed(s.devices)[k].serialHex) != Normalize(op.device.serialHex)
  }

  /** Two devices never share an entry of the list. */
  lemma OwnEntry(list: seq<DeviceFile.Device>, i: nat, j: nat)
    requires Registered(list) && i < |list| && j < |list|
    ensures WebNormalize(list[i].serialHex) != "" && list[i].serialHex != ""
    ensures i != j ==> WebNormalize(list[i].serialHex) != WebNormalize(list[j].serialHex)
  {
    hide Normalize, WebNormalize;
    WebPreservesKey(list[i].serialHex);
    WebPreservesKey(list[j].serialHex);
    EmptyIsRefused();
  }

  lemma SerialsOfAppend(es: seq<Entry>, e: Entry)
    ensures Serials(es + [e]) == Serials(es) + {e.serialHex}
  {
    var all := es + [e];
    assert all[|es|] == e;
    forall x | x in Serials(es) ensures x in Serials(all) {
      var k :| 0 <= k < |es| && es[k].serialHex == x;
      assert all[k] == es[k];
    }
  }

  lemma SerialsOfCut(es: seq<Entry>, i: nat)
    requires i < |es| && NoDuplicates(es)
    ensures Serials(es[..i] + es[i + 1..]) == Serials(es) - {es[i].serialHex}
    ensures NoDuplicates(es[..i] + es[i + 1..])
  {
    var cut := es[..i] + es[i + 1..];
    assert forall k :: 0 <= k < |cut| ==> cut[k] == es[if k < i then k else k + 1];
    forall x | x in Serials(es) && x != es[i].serialHex ensures x in Serials(cut) {
      var k :| 0 <= k < |es| && es[k].serialHex == x;
      assert cut[if k < i then k else k - 1] == es[k];
    }
  }

  /** Adding a serial adds its entry, once; removing it removes that entry. */
  lemma ListFollows(c: Crl, serial: string, subject: string, now: int)
    requires NoDuplicates(c.memory) && ReadCrl(c.file) == Some(c.memory) && WebNormalize(serial) != ""
    ensures var (added, r) := AddTo(c, serial, subject, now, true);
            && r == Done && NoDuplicates(added.memory) && ReadCrl(added.file) == Some(added.memory)
            && Serials(added.memory) == Serials(c.memory) + {WebNormalize(serial)}
    ensures var (removed, r) := RemoveFrom(c, serial, true);
            && r == Done && NoDuplicates(removed.memory) && ReadCrl(removed.file) == Some(removed.memory)
            && Serials(removed.memory) == Serials(c.memory) - {WebNormalize(serial)}
  {
    hide WebNormalize;
    var key, es := WebNormalize(serial), c.memory;
    SerialsOfAppend(es, Entry(key, subject, now));
    var i := FirstEntry(es, key, 0);
    if i < |es| {
      SerialsOfCut(es, i);
      assert es[i].serialHex in Serials(es);
    }
  }

  lemma FlaggedOfMark(list: seq<DeviceFile.Device>, i: nat, at: Option<int>)
    requires Registered(list) && i < |list|
    ensures Registered(list[i := Marked(list[i], at)])
    ensures Flagged(list[i := Marked(list[i], at)]) ==
            if at.Some? then Flagged(list) + {WebNormalize(list[i].serialHex)}
            else Flagged(list) - {WebNormalize(list[i].serialHex)}
  {
    hide WebNormalize, Normalize;
    var next := list[i := Marked(list[i], at)];
    assert forall k :: 0 <= k < |list| && k != i ==> next[k] == list[k];
    assert next[i].serialHex == list[i].serialHex && next[i].revoked == at.Some?;
    forall k | 0 <= k < |list| && k != i ensures WebNormalize(list[i].serialHex) != WebNormalize(list[k].serialHex) {
      OwnEntry(list, i, k);
    }
    forall x | x in Flagged(list) && x != WebNormalize(list[i].serialHex) ensures x in Flagged(next) {
      var k :| 0 <= k < |list| && list[k].revoked && WebNormalize(list[k].serialHex) == x;
      assert next[k] == list[k];
    }
    forall x | x in Flagged(next) && x != WebNormalize(list[i].serialHex) ensures x in Flagged(list) {
      var k :| 0 <= k < |next| && next[k].revoked && WebNormalize(next[k].serialHex) == x;
      assert next[k] == list[k];
    }
  }

  lemma FlaggedOfAppend(list: seq<DeviceFile.Device>, d: DeviceFile.Device)
    requires !d.revoked
    ensures Flagged(list + [d]) == Flagged(list)
  {
    hide WebNormalize;
    var all := list + [d];
    forall x | x in Flagged(all) ensures x in Flagged(list) {
      var k :| 0 <= k < |all| && all[k].revoked && WebNormalize(all[k].serialHex) == x;
      assert all[k] == list[k];
    }
    forall x | x in Flagged(list) ensures x in Flagged(all) {
      var k :| 0 <= k < |list| && list[k].revoked && WebNormalize(list[k].serialHex) == x;
      assert all[k] == list[k];
    }
  }

  /** The device file and the list after marking a known device. */
  lemma MarkOfKnown(s: Stores, i: nat, id: string, at: Option<int>, listedAt: int)
    requires Agreed(s)
    requires var list := DeviceFile.Listed(s.devices);
             i == FirstDevice(list, id, 0) && i < |list| && list[i].serialHex != ""
    ensures var list, t := DeviceFile.Listed(s.devices), Mark(s, id, at, listedAt, HEALTHY).0;
            && DeviceFile.ReadDevices(t.devices) == Some(list[i := Marked(list[i], at)])
            && t.crl == if at.Some? then AddTo(s.crl, list[i].serialHex, list[i].subject, listedAt, true).0
                        else RemoveFrom(s.crl, list[i].serialHex, true).0
  {
    hide Registered, NoDuplicates, Flagged, Serials, AddTo, RemoveFrom;
    var list := DeviceFile.Listed(s.devices);
    assert list[i].revoked == at.Some? ==> list[i := Marked(list[i], at)] == list;
  }

  lemma MarkKeepsAgreement(s: Stores, id: string, at: Option<int>, listedAt: int)
    requires Agreed(s)
    ensures Agreed(Mark(s, id, at, listedAt, HEALTHY).0)
  {
    var list := DeviceFile.Listed(s.devices);
    var i := FirstDevice(list, id, 0);
    if i < |list| {
      OwnEntry(list, i, i);
      FlaggedOfMark(list, i, at);
      MarkOfKnown(s, i, id, at, listedAt);
      hide WebNormalize, Normalize, Registered, NoDuplicates, AddTo, RemoveFrom, Flagged, Serials, Mark;
      ListFollows(s.crl, list[i].serialHex, list[i].subject, listedAt);
    }
  }

  lemma KeepsAgreement(s: Stores, op: Op)
    requires Agreed(s) && FreshFor(s, op)
    ensures Agreed(Next(s, op, HEALTHY).0)
  {
    hide WebNormalize, Normalize, Mark, Flagged;
    match op
    case Enroll(d) => FlaggedOfAppend(DeviceFile.Listed(s.devices), d);
    case Revoke(id, now, listedAt) => MarkKeepsAgreement(s, id, Some(now), listedAt);
    case UnRevoke(id) => MarkKeepsAgreement(s, id, None, 0);
  }

  function Run(s: Stores, ops: seq<Op>): Stores {
    if ops == [] then s else Next(Run(s, ops[..|ops| - 1]), ops[|ops| - 1], HEALTHY).0
  }

  ghost predicate AllFresh(s: Stores, ops: seq<Op>) {
    forall k :: 0 <= k < |ops| ==> FreshFor(Run(s, ops[..k]), ops[k])
  }

  lemma FreshFront(s: Stores, ops: seq<Op>)
    requires AllFresh(s, ops) && ops != []
    ensures AllFresh(s, ops[..|ops| - 1])
  {
    hide Run, FreshFor;
    var front := ops[..|ops| - 1];
    assert forall k :: 0 <= k < |front| ==> front[..k] == ops[..k];
  }

  /** After any run the list holds exactly the serials of the flagged devices, each once. */
  lemma {:induction false} AlwaysAgreed(s: Stores, ops: seq<Op>)
    requires Agreed(s) && AllFresh(s, ops)
    ensures Agreed(Run(s, ops))
    decreases |ops|
  {
    if ops != [] {
      var front := ops[..|ops| - 1];
      FreshFront(s, ops);
      hide Agreed, FreshFor, Next;
      AlwaysAgreed(s, front);
      KeepsAgreement(Run(s, front), ops[|ops| - 1]);
    }
  }

  /** A certificate with this serial is refused by a tls-proxy that has read the file. */
  ghost predicate Refuses(c: CrlFile, n: int) {
    ReadCrl(c).Some? && Normalize(HexText(n)) in Keys(ReadCrl(c).value)
  }

  /** tls-proxy, once it has read the list, refuses exactly the serials of flagged devices. */
  lemma EnforcedIffFlagged(s: Stores, n: int)
    requires Agreed(s)
    ensures Refuses(s.crl.file, n) <==>
            exists k :: 0 <= k < |DeviceFile.Listed(s.devices)| && DeviceFile.Listed(s.devices)[k].revoked
                        && SerialValue(DeviceFile.Listed(s.devices)[k].serialHex) == Some(Magnitude(n))
  {
    hide Normalize, WebNormalize, SerialValue, Digits, HexText;
    var es, list, m := s.crl.memory, DeviceFile.Listed(s.devices), Magnitude(n);
    RevokedIffListed(es, n);
    forall k | 0 <= k < |list| ensures SerialValue(WebNormalize(list[k].serialHex)) == Some(m) <==> SerialValue(list[k].serialHex) == Some(m) {
      WebPreservesKey(list[k].serialHex);
      KeyStandsFor(list[k].serialHex, m);
      KeyStandsFor(WebNormalize(list[k].serialHex), m);
    }
    if j :| 0 <= j < |es| && SerialValue(es[j].serialHex) == Some(m) {
      assert es[j].serialHex in Serials(es);
      var k :| 0 <= k < |list| && list[k].revoked && WebNormalize(list[k].serialHex) == es[j].serialHex;
    }
    if k :| 0 <= k < |list| && list[k].revoked && SerialValue(list[k].serialHex) == Some(m) {
      assert WebNormalize(list[k].serialHex) in Flagged(list);
      var j :| 0 <= j < |es| && es[j].serialHex == WebNormalize(list[k].serialHex);
    }
  }

  // ---- History ----

  /** The last word on a device: what the latest command about it asked for. */
  function LastWord(ops: seq<Op>, id: string, before: bool): bool {
    if ops == [] then before
    else
      match ops[|ops| - 1]
      case Enroll(_) => LastWord(ops[..|ops| - 1], id, before)
      case Revoke(about, _, _) => about == id || LastWord(ops[..|ops| - 1], id, before)
      case UnRevoke(about) => about != id && LastWord(ops[..|ops| - 1], id, before)
  }

  /** `d` as it is now, but for the flag and its time. */
  ghost predicate SameDevice(d: DeviceFile.Device, e: DeviceFile.Device) {
    e == d.(revoked := e.revoked, revokedAt := e.revokedAt)
  }

  lemma StepOnDevice(s: Stores, op: Op, k: nat)
    requires Agreed(s) && k < |DeviceFile.Listed(s.devices)|
    ensures var list, next := DeviceFile.Listed(s.devices), DeviceFile.Listed(Next(s, op, HEALTHY).0.devices);
            && |list| <= |next| && SameDevice(list[k], next[k])
            && next[k].revoked == LastWord([op], list[k].deviceId, list[k].revoked)
  {
    hide WebNormalize, Normalize, AddTo, RemoveFrom;
    assert [op][..0] == [];
  }

  lemma LastWordStep(ops: seq<Op>, id: string, before: bool)
    requires ops != []
    ensures LastWord(ops, id, before) == LastWord([ops[|ops| - 1]], id, LastWord(ops[..|ops| - 1], id, before))
  {
    assert [ops[|ops| - 1]][..0] == [];
  }

  /** Devices are never lost, moved or altered, and each is flagged exactly if the last command about it was
      a revocation. */
  lemma {:induction false} DeviceHistory(s: Stores, ops: seq<Op>, k: nat)
    requires Agreed(s) && AllFresh(s, ops) && k < |DeviceFile.Listed(s.devices)|
    ensures var list, next := DeviceFile.Listed(s.devices), DeviceFile.Listed(Run(s, ops).devices);
            && |list| <= |next| && SameDevice(list[k], next[k])
            && next[k].revoked == LastWord(ops, list[k].deviceId, list[k].revoked)
    decreases |ops|
  {
    if ops != [] {
      var front, op := ops[..|ops| - 1], ops[|ops| - 1];
      FreshFront(s, ops);
      hide Agreed, AllFresh, Next, LastWord;
      AlwaysAgreed(s, front);
      DeviceHistory(s, front, k);
      StepOnDevice(Run(s, front), op, k);
      LastWordStep(ops, DeviceFile.Listed(s.devices)[k].deviceId, DeviceFile.Listed(s.devices)[k].revoked);
    }
  }

  lemma FlagIsEnforced(t: Stores, k: nat, n: nat, store: RevokedStore)
    requires Agreed(t) && k < |DeviceFile.Listed(t.devices)| && Loaded(store, t.crl.file)
    requires SerialValue(DeviceFile.Listed(t.devices)[k].serialHex) == Some(n)
    ensures store.IsRevoked(n) <==> DeviceFile.Listed(t.devices)[k].revoked
  {
    hide Normalize, SerialValue, HexText;
    var list := DeviceFile.Listed(t.devices);
    EnforcedIffFlagged(t, n);
    if j :| 0 <= j < |list| && list[j].revoked && SerialValue(list[j].serialHex) == Some(n) {
      SameNumberSameDevice(list, j, k);
    }
  }

  /** End to end: after any run, a tls-proxy that has reloaded the list refuses a device's certificate
      exactly if the last command about that device was a revocation. */
  lemma Enforcement(s: Stores, ops: seq<Op>, k: nat, n: nat, store: RevokedStore)
    requires Agreed(s) && AllFresh(s, ops) && k < |DeviceFile.Listed(s.devices)|
    requires SerialValue(DeviceFile.Listed(s.devices)[k].serialHex) == Some(n)
    requires Loaded(store, Run(s, ops).crl.file)
    ensures store.IsRevoked(n) <==>
            LastWord(ops, DeviceFile.Listed(s.devices)[k].deviceId, DeviceFile.Listed(s.devices)[k].revoked)
  {
    hide Normalize, SerialValue, HexText, Run, LastWord, AllFresh, Agreed, Loaded;
    AlwaysAgreed(s, ops);
    DeviceHistory(s, ops, k);
    FlagIsEnforced(Run(s, ops), k, n, store);
  }

  // ---- Devices enrolled on the way ----

  lemma {:induction false} RunSplit(s: Stores, ops: seq<Op>, m: nat)
    requires m <= |ops|
    ensures Run(s, ops) == Run(Run(s, ops[..m]), ops[m..])
    decreases |ops|
  {
    hide Next;
    if m == |ops| {
      assert ops[..m] == ops;
    } else {
      var front := ops[..|ops| - 1];
      RunSplit(s, front, m);
      assert front[..m] == ops[..m] && ops[m..][..|ops[m..]| - 1] == front[m..];
    }
  }

  lemma FreshSplit(s: Stores, ops: seq<Op>, m: nat)
    requires AllFresh(s, ops) && m <= |ops|
    ensures AllFresh(s, ops[..m]) && AllFresh(Run(s, ops[..m]), ops[m..])
  {
    hide Run, FreshFor;
    assert forall k :: 0 <= k < m ==> ops[..m][..k] == ops[..k];
    forall k | 0 <= k < |ops[m..]| ensures FreshFor(Run(Run(s, ops[..m]), ops[m..][..k]), ops[m..][k]) {
      RunSplit(s, ops[..m + k], m);
      assert ops[..m + k][..m] == ops[..m] && ops[..m + k][m..] == ops[m..][..k];
    }
  }

  /** Step `m` of the run enrolls the device at position `k`. */
  ghost predicate EnrolledAt(s: Stores, ops: seq<Op>, m: nat, k: nat) {
    && m < |ops| && ops[m].Enroll?
    && var before := DeviceFile.Listed(Run(s, ops[..m]).devices);
       k == |before| && !DeviceFile.HasId(before, ops[m].device.deviceId)
  }

  lemma EnrollStep(s: Stores, d: DeviceFile.Device)
    requires Agreed(s) && !DeviceFile.HasId(DeviceFile.Listed(s.devices), d.deviceId)
    ensures DeviceFile.Listed(Next(s, Enroll(d), HEALTHY).0.devices) == DeviceFile.Listed(s.devices) + [d]
  {
    hide Registered, NoDuplicates, Flagged, Serials;
  }

  /** The same history for a device that the run itself enrolls, counted from its enrollment. */
  lemma EnrolledHistory(s: Stores, ops: seq<Op>, m: nat, k: nat)
    requires Agreed(s) && AllFresh(s, ops) && EnrolledAt(s, ops, m, k)
    ensures var next := DeviceFile.Listed(Run(s, ops).devices);
            && k < |next| && SameDevice(ops[m].device, next[k])
            && next[k].revoked == LastWord(ops[m + 1..], ops[m].device.deviceId, false)
  {
    hide Agreed, AllFresh, LastWord, Next, FreshFor, SameDevice;
    FreshSplit(s, ops, m + 1);
    FreshSplit(s, ops, m);
    AlwaysAgreed(s, ops[..m]);
    AlwaysAgreed(s, ops[..m + 1]);
    assert ops[..m + 1][..m] == ops[..m] && ops[..m + 1][m] == ops[m];
    EnrollStep(Run(s, ops[..m]), ops[m].device);
    RunSplit(s, ops, m + 1);
    FreshlyUnflagged(s, ops, m);
    DeviceHistory(Run(s, ops[..m + 1]), ops[m + 1..], k);
  }

  lemma FreshlyUnflagged(s: Stores, ops: seq<Op>, m: nat)
    requires AllFresh(s, ops) && m < |ops| && ops[m].Enroll?
    ensures !ops[m].device.revoked
  {
    hide Run;
    assert FreshFor(Run(s, ops[..m]), ops[m]);
  }

  /** Every device listed after a run was there before it or was enrolled by one of its steps. */
  lemma {:induction false} Origin(s: Stores, ops: seq<Op>, k: nat)
    requires Agreed(s) && AllFresh(s, ops) && k < |DeviceFile.Listed(Run(s, ops).devices)|
    ensures k < |DeviceFile.Listed(s.devices)| || exists m: nat :: EnrolledAt(s, ops, m, k)
    decreases |ops|
  {
    hide Agreed, AllFresh, Next, FreshFor;
    if ops != [] {
      var last: nat := |ops| - 1;
      var front := ops[..last];
      FreshSplit(s, ops, last);
      AlwaysAgreed(s, front);
      OneMoreAtMost(Run(s, front), ops[last]);
      if k < |DeviceFile.Listed(Run(s, front).devices)| {
        Origin(s, front, k);
        if m: nat :| EnrolledAt(s, front, m, k) {
          assert front[..m] == ops[..m] && front[m] == ops[m];
          assert EnrolledAt(s, ops, m, k);
        }
      } else {
        assert EnrolledAt(s, ops, last, k);
      }
    }
  }

  lemma OneMoreAtMost(s: Stores, op: Op)
    requires Agreed(s)
    ensures var list, next := DeviceFile.Listed(s.devices), DeviceFile.Listed(Next(s, op, HEALTHY).0.devices);
            && |next| <= |list| + 1
            && (|next| > |list| ==> op.Enroll? && !DeviceFile.HasId(list, op.device.deviceId))
  {
    hide Registered, NoDuplicates, Flagged, Serials, AddTo, RemoveFrom, WebNormalize, Normalize;
  }

  /** End to end for devices enrolled during the run. */
  lemma EnforcementOfEnrolled(s: Stores, ops: seq<Op>, m: nat, k: nat, n: nat, store: RevokedStore)
    requires Agreed(s) && AllFresh(s, ops) && EnrolledAt(s, ops, m, k)
    requires SerialValue(ops[m].device.serialHex) == Some(n) && Loaded(store, Run(s, ops).crl.file)
    ensures store.IsRevoked(n) <==> LastWord(ops[m + 1..], ops[m].device.deviceId, false)
  {
    hide Normalize, SerialValue, HexText, Run, LastWord, AllFresh, Agreed, Loaded, EnrolledAt;
    AlwaysAgreed(s, ops);
    EnrolledHistory(s, ops, m, k);
    FlagIsEnforced(Run(s, ops), k, n, store);
  }

  lemma SameNumberSameDevice(list: seq<DeviceFile.Device>, i: nat, j: nat)
    requires Registered(list) && i < |list| && j < |list|
    requires SerialValue(list[i].serialHex) == SerialValue(list[j].serialHex)
    ensures i == j
  {
    hide Normalize, SerialValue;
    SameKeyIff(list[i].serialHex, list[j].serialHex);
  }

  // ---- When the list cannot be written ----

  lemma SerialsOfFirst(es: seq<Entry>, key: string)
    ensures FirstEntry(es, key, 0) < |es| <==> key in Serials(es)
  {
  }

  /** When an addition reaches the file: exactly if it was there already, or the write works and memory does
      not hold the serial yet. */
  lemma AddReachesFileIff(c: Crl, serial: string, subject: string, now: int, writable: bool)
    requires ReadCrl(c.file).Some? && WebNormalize(serial) != ""
    ensures var key, after := WebNormalize(serial), AddTo(c, serial, subject, now, writable).0;
            && ReadCrl(after.file).Some?
            && (key in Serials(ReadCrl(after.file).value) <==>
                key in Serials(ReadCrl(c.file).value) || (writable && key !in Serials(c.memory)))
  {
    hide WebNormalize, Serials;
    var key := WebNormalize(serial);
    SerialsOfFirst(c.memory, key);
    SerialsOfAppend(c.memory, Entry(key, subject, now));
  }

  /** When a removal reaches it: exactly if the serial was not there, or the write works and memory still
      holds it. */
  lemma RemoveReachesFileIff(c: Crl, serial: string, writable: bool)
    requires ReadCrl(c.file).Some? && WebNormalize(serial) != "" && NoDuplicates(c.memory)
    ensures var key, after := WebNormalize(serial), RemoveFrom(c, serial, writable).0;
            && ReadCrl(after.file).Some?
            && (key !in Serials(ReadCrl(after.file).value) <==>
                key !in Serials(ReadCrl(c.file).value) || (writable && key in Serials(c.memory)))
  {
    hide WebNormalize, Serials, NoDuplicates;
    var key := WebNormalize(serial);
    SerialsOfFirst(c.memory, key);
    var i := FirstEntry(c.memory, key, 0);
    if i < |c.memory| { SerialsOfCut(c.memory, i); }
  }

  lemma RefusesEntry(es: seq<Entry>, k: nat, serial: string, n: nat)
    requires k < |es| && es[k].serialHex == WebNormalize(serial) && SerialValue(serial) == Some(n)
    ensures Normalize(HexText(n)) in Keys(es)
  {
    hide WebNormalize, Normalize, SerialValue, HexText, Keys;
    KeyStandsFor(serial, n);
    DigitsAreSome(n);
    WebPreservesKey(serial);
    KeyStandsFor(WebNormalize(serial), n);
    RevokedIffListed(es, n);
  }

  lemma DigitsAreSome(n: nat)
    ensures Digits(n, 16) != ""
  {
  }

  /** The effect of an addition on enforcement, whatever memory and file hold. */
  lemma AddRefusesIff(c: Crl, serial: string, subject: string, now: int, writable: bool, n: nat)
    requires ReadCrl(c.file).Some? && SerialValue(serial) == Some(n)
    ensures var after := AddTo(c, serial, subject, now, writable).0;
            Refuses(after.file, n) <==>
            Refuses(c.file, n) || (writable && WebNormalize(serial) !in Serials(c.memory))
  {
    hide WebNormalize, Normalize, SerialValue, HexText, Keys, Serials;
    var key := WebNormalize(serial);
    NumberHasWebKey(serial);
    SerialsOfFirst(c.memory, key);
    var longer := c.memory + [Entry(key, subject, now)];
    assert longer[|c.memory|].serialHex == key;
    RefusesEntry(longer, |c.memory|, serial, n);
  }

  lemma NumberHasWebKey(serial: string)
    requires SerialValue(serial).Some?
    ensures WebNormalize(serial) != "" && serial != "" && Normalize(serial) != ""
  {
    hide WebNormalize, Normalize, SerialValue;
    KeyIsNumber(serial);
    DigitsAreSome(SerialValue(serial).value);
    WebPreservesKey(serial);
    EmptyIsRefused();
  }

  /** The exact effect of one `Revoke` of a known device on enforcement, from any state of memory and file:
      afterwards tls-proxy refuses the certificate if and only if it did before, or the list can be written
      and memory does not hold the serial yet. */
  lemma RevokeRefusesIff(s: Stores, id: string, now: int, listedAt: int, disk: Disk, n: nat)
    requires disk.readable && DeviceFile.ReadDevices(s.devices).Some? && ReadCrl(s.crl.file).Some?
    requires var list := DeviceFile.ReadDevices(s.devices).value;
             var i := FirstDevice(list, id, 0);
             i < |list| && (list[i].revoked || disk.devices) && SerialValue(list[i].serialHex) == Some(n)
    ensures var list := DeviceFile.ReadDevices(s.devices).value;
            var known := WebNormalize(list[FirstDevice(list, id, 0)].serialHex) in Serials(s.crl.memory);
            var (after, r) := Next(s, Op.Revoke(id, now, listedAt), disk);
            && (Refuses(after.crl.file, n) <==> Refuses(s.crl.file, n) || (disk.crl && !known))
            && (r == Ok <==> disk.crl || known)
  {
    hide WebNormalize, SerialValue, Serials, Refuses;
    var list := DeviceFile.ReadDevices(s.devices).value;
    var d := list[FirstDevice(list, id, 0)];
    NumberHasWebKey(d.serialHex);
    SerialsOfFirst(s.crl.memory, WebNormalize(d.serialHex));
    AddRefusesIff(s.crl, d.serialHex, d.subject, listedAt, disk.crl, n);
  }

  /** What marking a known device does, on its list and on the revocation list. */
  lemma MarkIs(s: Stores, list: seq<DeviceFile.Device>, i: nat, at: Option<int>, listedAt: int, disk: Disk)
    requires disk.readable && DeviceFile.ReadDevices(s.devices) == Some(list)
    requires i < |list| && FirstDevice(list, list[i].deviceId, 0) == i && list[i].serialHex != ""
    requires list[i].revoked == at.Some? || disk.devices
    ensures var change := if at.Some? then AddTo(s.crl, list[i].serialHex, list[i].subject, listedAt, disk.crl)
                          else RemoveFrom(s.crl, list[i].serialHex, disk.crl);
            Mark(s, list[i].deviceId, at, listedAt, disk) ==
            (Stores(if list[i].revoked == at.Some? then s.devices else DeviceFile.Devices(list[i := Marked(list[i], at)]),
                    change.0), OfCrl(change.1))
  {
    hide AddTo, RemoveFrom, Marked;
  }

  /** The effect of a removal on enforcement, whatever memory and file hold. */
  lemma RemoveRefusesIff(c: Crl, serial: string, writable: bool, n: nat)
    requires ReadCrl(c.file).Some? && WebNormalize(serial) != ""
    ensures var first, after := FirstEntry(c.memory, WebNormalize(serial), 0), RemoveFrom(c, serial, writable);
            && (Refuses(after.0.file, n) <==>
                if writable && first < |c.memory|
                then exists k :: 0 <= k < |c.memory| && k != first && SerialValue(c.memory[k].serialHex) == Some(n)
                else Refuses(c.file, n))
            && (after.1 == Done <==> writable || first == |c.memory|)
  {
    hide WebNormalize, SerialValue, Refuses;
    var first := FirstEntry(c.memory, WebNormalize(serial), 0);
    if first < |c.memory| { CutRefusesIff(c.memory, first, n); }
  }

  /** The exact effect of one `UnRevoke` of a known device: if the list can be written and memory holds the
      serial, tls-proxy then refuses the certificate only for another entry of that number; otherwise
      nothing changes for it. */
  lemma UnRevokeRefusesIff(s: Stores, id: string, disk: Disk, n: nat)
    requires disk.readable && DeviceFile.ReadDevices(s.devices).Some? && ReadCrl(s.crl.file).Some?
    requires var list := DeviceFile.ReadDevices(s.devices).value;
             var i := FirstDevice(list, id, 0);
             i < |list| && (!list[i].revoked || disk.devices) && SerialValue(list[i].serialHex) == Some(n)
    ensures var list := DeviceFile.ReadDevices(s.devices).value;
            var memory, first := s.crl.memory, FirstEntry(s.crl.memory, WebNormalize(list[FirstDevice(list, id, 0)].serialHex), 0);
            var (after, r) := Next(s, Op.UnRevoke(id), disk);
            && (Refuses(after.crl.file, n) <==>
                if disk.crl && first < |memory|
                then exists k :: 0 <= k < |memory| && k != first && SerialValue(memory[k].serialHex) == Some(n)
                else Refuses(s.crl.file, n))
            && (r == Ok <==> disk.crl || first == |memory|)
  {
    hide WebNormalize, SerialValue, Refuses, Mark, AddTo, RemoveFrom;
    var list := DeviceFile.ReadDevices(s.devices).value;
    var i := FirstDevice(list, id, 0);
    NumberHasWebKey(list[i].serialHex);
    MarkIs(s, list, i, None, 0, disk);
    RemoveRefusesIff(s.crl, list[i].serialHex, disk.crl, n);
  }

  lemma CutRefusesIff(es: seq<Entry>, i: nat, n: nat)
    requires i < |es|
    ensures Refuses(Listed(es[..i] + es[i + 1..]), n) <==>
            exists k :: 0 <= k < |es| && k != i && SerialValue(es[k].serialHex) == Some(n)
  {
    hide Normalize, SerialValue, HexText, Keys;
    var cut := es[..i] + es[i + 1..];
    RevokedIffListed(cut, n);
    assert forall k :: 0 <= k < |cut| ==> cut[k] == es[if k < i then k else k + 1];
    if k :| 0 <= k < |es| && k != i && SerialValue(es[k].serialHex) == Some(n) {
      assert cut[if k < i then k else k - 1] == es[k];
    }
  }

  /** Repeating a revocation is not safe after a failed write: from agreeing stores, every repetition, with
      whatever disk, answers success, changes nothing, and leaves the certificate valid for tls-proxy - until
      the list is read again. */
  lemma RetryHidesTheFailure(s: Stores, k: nat, now: int, listedAt: int, n: nat, later: int, laterListed: int, disk: Disk)
    requires Agreed(s) && k < |DeviceFile.Listed(s.devices)| && !DeviceFile.Listed(s.devices)[k].revoked
    requires SerialValue(DeviceFile.Listed(s.devices)[k].serialHex) == Some(n) && disk.readable
    ensures var id := DeviceFile.Listed(s.devices)[k].deviceId;
            var (failed, r) := Next(s, Op.Revoke(id, now, listedAt), Disk(true, true, false));
            && r == CrlFailed
            && Next(failed, Op.Revoke(id, later, laterListed), disk) == (failed, Ok)
            && k < |DeviceFile.Listed(failed.devices)| && DeviceFile.Listed(failed.devices)[k].revoked
            && !Refuses(failed.crl.file, n)
  {
    hide WebNormalize, Normalize, SerialValue, HexText, Flagged;
    var list := DeviceFile.Listed(s.devices);
    var d := list[k];
    NotRefusedBefore(s, k, n);
    NumberHasWebKey(d.serialHex);
    NotListedBefore(s, k);
    hide Refuses, Agreed, Registered, NoDuplicates;
    assert FirstDevice(list, d.deviceId, 0) == k by { IdIsAt(s, k); }
    hide Serials;
    var key := WebNormalize(d.serialHex);
    SerialsOfFirst(s.crl.memory, key);
    assert FirstEntry(s.crl.memory + [Entry(key, d.subject, listedAt)], key, 0) <= |s.crl.memory| by {
      assert (s.crl.memory + [Entry(key, d.subject, listedAt)])[|s.crl.memory|].serialHex == key;
    }
    var marked := list[k := Marked(d, Some(now))];
    assert FirstDevice(marked, d.deviceId, 0) == k by { IdIsStillAt(list, k, marked); }
  }

  /** When reading the list again heals this: exactly if it can be read, there is a list in the file, and the
      repetition can write it.  A missing or an empty file leaves memory as it is, and the failure hidden. */
  lemma ReloadHealsIff(s: Stores, k: nat, now: int, listedAt: int, n: nat, later: int, laterListed: int, disk: Disk, readable: bool)
    requires Agreed(s) && k < |DeviceFile.Listed(s.devices)| && !DeviceFile.Listed(s.devices)[k].revoked
    requires SerialValue(DeviceFile.Listed(s.devices)[k].serialHex) == Some(n) && disk.readable
    ensures var id := DeviceFile.Listed(s.devices)[k].deviceId;
            var failed := Next(s, Op.Revoke(id, now, listedAt), Disk(true, true, false)).0;
            var reloaded := failed.(crl := Reloaded(failed.crl, readable));
            Refuses(Next(reloaded, Op.Revoke(id, later, laterListed), disk).0.crl.file, n) <==>
            readable && s.crl.file.Listed? && disk.crl
  {
    var list := DeviceFile.Listed(s.devices);
    var d := list[k];
    var failed := Next(s, Op.Revoke(d.deviceId, now, listedAt), Disk(true, true, false)).0;
    var reloaded := failed.(crl := Reloaded(failed.crl, readable));
    AfterFailedRevoke(s, k, now, listedAt, n);
    NotListedBefore(s, k);
    NotRefusedBefore(s, k, n);
    hide WebNormalize, Normalize, SerialValue, HexText, Next, Refuses, Registered, NoDuplicates, Flagged;
    KeyOfLast(s.crl.memory, Entry(WebNormalize(d.serialHex), d.subject, listedAt));
    hide Serials;
    RevokeRefusesIff(reloaded, d.deviceId, later, laterListed, disk, n);
  }

  lemma KeyOfLast(es: seq<Entry>, e: Entry)
    ensures e.serialHex in Serials(es + [e])
  {
    SerialsOfAppend(es, e);
  }

  /** The state that the failed write leaves. */
  lemma AfterFailedRevoke(s: Stores, k: nat, now: int, listedAt: int, n: nat)
    requires Agreed(s) && k < |DeviceFile.Listed(s.devices)| && !DeviceFile.Listed(s.devices)[k].revoked
    requires SerialValue(DeviceFile.Listed(s.devices)[k].serialHex) == Some(n)
    ensures var list := DeviceFile.Listed(s.devices);
            var failed := Next(s, Op.Revoke(list[k].deviceId, now, listedAt), Disk(true, true, false)).0;
            && failed.devices == DeviceFile.Devices(list[k := Marked(list[k], Some(now))])
            && FirstDevice(list[k := Marked(list[k], Some(now))], list[k].deviceId, 0) == k
            && failed.crl == Crl(s.crl.memory + [Entry(WebNormalize(list[k].serialHex), list[k].subject, listedAt)], s.crl.file)
  {
    var list := DeviceFile.Listed(s.devices);
    NumberHasWebKey(list[k].serialHex);
    NotListedBefore(s, k);
    IdIsAt(s, k);
    AddFails(s.crl, list[k].serialHex, list[k].subject, listedAt);
    IdIsStillAt(list, k, list[k := Marked(list[k], Some(now))]);
    hide WebNormalize, SerialValue, Flagged, Registered, NoDuplicates, Serials, AddTo, RemoveFrom, Mark, Marked;
    MarkIs(s, list, k, Some(now), listedAt, Disk(true, true, false));
  }

  lemma AddFails(c: Crl, serial: string, subject: string, now: int)
    requires WebNormalize(serial) != "" && WebNormalize(serial) !in Serials(c.memory)
    ensures AddTo(c, serial, subject, now, false) ==
            (Crl(c.memory + [Entry(WebNormalize(serial), subject, now)], c.file), NotSaved)
  {
    SerialsOfFirst(c.memory, WebNormalize(serial));
    hide WebNormalize, Serials;
  }

  lemma IdIsAt(s: Stores, k: nat)
    requires Agreed(s) && k < |DeviceFile.Listed(s.devices)|
    ensures FirstDevice(DeviceFile.Listed(s.devices), DeviceFile.Listed(s.devices)[k].deviceId, 0) == k
  {
  }

  lemma IdIsStillAt(list: seq<DeviceFile.Device>, k: nat, marked: seq<DeviceFile.Device>)
    requires k < |list| == |marked| && FirstDevice(list, list[k].deviceId, 0) == k
    requires forall j :: 0 <= j < |list| ==> marked[j].deviceId == list[j].deviceId
    ensures FirstDevice(marked, list[k].deviceId, 0) == k
  {
  }

  lemma NotRefusedBefore(s: Stores, k: nat, n: nat)
    requires Agreed(s) && k < |DeviceFile.Listed(s.devices)| && !DeviceFile.Listed(s.devices)[k].revoked
    requires SerialValue(DeviceFile.Listed(s.devices)[k].serialHex) == Some(n)
    ensures !Refuses(s.crl.file, n)
  {
    hide Normalize, SerialValue, HexText;
    var list := DeviceFile.Listed(s.devices);
    EnforcedIffFlagged(s, n);
    if j :| 0 <= j < |list| && list[j].revoked && SerialValue(list[j].serialHex) == Some(n) {
      SameNumberSameDevice(list, j, k);
    }
  }

  lemma NotListedBefore(s: Stores, k: nat)
    requires Agreed(s) && k < |DeviceFile.Listed(s.devices)| && !DeviceFile.Listed(s.devices)[k].revoked
    ensures WebNormalize(DeviceFile.Listed(s.devices)[k].serialHex) !in Serials(s.crl.memory)
  {
    hide WebNormalize, Normalize, Serials;
    var list := DeviceFile.Listed(s.devices);
    forall j | 0 <= j < |list| && list[j].revoked ensures WebNormalize(list[j].serialHex) != WebNormalize(list[k].serialHex) {
      OwnEntry(list, j, k);
    }
  }

  datatype Change = Addition(serial: string, subject: string, now: int) | Removal(serial: string)

  function Changed(c: Crl, change: Change, writable: bool): (Crl, CrlResult) {
    match change
    case Addition(serial, subject, now) => AddTo(c, serial, subject, now, writable)
    case Removal(serial) => RemoveFrom(c, serial, writable)
  }

  /** The change has something to do. */
  predicate Alters(memory: seq<Entry>, change: Change) {
    && WebNormalize(change.serial) != ""
    && (change.Addition? <==> forall k :: 0 <= k < |memory| ==> memory[k].serialHex != WebNormalize(change.serial))
  }

  /** A file in step with memory stays so exactly if the change has nothing to do or can be saved; and a
      saved change that has something to do also carries out all earlier unsaved ones. */
  lemma InStepIff(c: Crl, change: Change, writable: bool)
    ensures ReadCrl(c.file) == Some(c.memory) ==>
              (ReadCrl(Changed(c, change, writable).0.file) == Some(Changed(c, change, writable).0.memory) <==>
               writable || !Alters(c.memory, change))
    ensures writable && Alters(c.memory, change) ==>
              ReadCrl(Changed(c, change, writable).0.file) == Some(Changed(c, change, writable).0.memory)
  {
    hide WebNormalize;
    var i := FirstEntry(c.memory, WebNormalize(change.serial), 0);
    var next := Changed(c, change, writable).0.memory;
    assert next != c.memory ==> |next| != |c.memory|;
  }
}
