/** The Sensor Information characteristic: the tag's serialisation (esl_sensor_read of esl.c) and the access
    point's parser (parse_sensor_info_from_raw of esl_common.c). */
module SensorInfo {
  import opened Bytes
  import opened Ead

  /** struct esl_sensor_inf by its size kind; other kinds have no layout on the air. */
  datatype Sensor = Property(id: u16) | Vendor(company: u16, code: u16) | Unknown(kind: byte)

  function Kind(s: Sensor): byte {
    match s case Property(_) => 0 case Vendor(_, _) => 1 case Unknown(kind) => kind
  }

  predicate Known(s: Sensor) { !s.Unknown? }

  /** A kind of 0 or 1 has a layout. */
  predicate Proper(s: Sensor) { s.Unknown? ==> s.kind > 1 }

  function RawOne(s: Sensor): bytes {
    match s
    case Property(id) => [0] + PutLe16(id)
    case Vendor(company, code) => [1] + PutLe16(company) + PutLe16(code)
    case Unknown(_) => []
  }

  /** On the air: a kind, then a property ID, or a company and its sensor code, low byte first. */
  lemma Layouts(id: u16, company: u16, code: u16)
    ensures RawOne(Property(id)) == [0x00, id % 0x100, id / 0x100]
    ensures RawOne(Vendor(company, code)) == [0x01, company % 0x100, company / 0x100, code % 0x100, code / 0x100]
  {
  }

  function Raw(sensors: seq<Sensor>): bytes {
    if sensors == [] then [] else RawOne(sensors[0]) + Raw(sensors[1..])
  }

  /** Length of the entry that starts with this kind; 0 when there is none. */
  function EntryLen(kind: byte): nat { if kind == 0 then 3 else if kind == 1 then 5 else 0 }

  /** Whole entries of kind 0 or 1, and nothing else. */
  predicate WellFormed(raw: bytes)
    decreases |raw|
  {
    raw == [] || (0 < EntryLen(raw[0]) <= |raw| && WellFormed(raw[EntryLen(raw[0])..]))
  }

  function EntryAt(raw: bytes): Sensor
    requires raw != [] && 0 < EntryLen(raw[0]) <= |raw|
  {
    if raw[0] == 0 then Property(GetLe16(raw[1..3])) else Vendor(GetLe16(raw[1..3]), GetLe16(raw[3..5]))
  }

  function Parsed(raw: bytes): (sensors: seq<Sensor>)
    requires WellFormed(raw)
    ensures forall s | s in sensors :: Known(s)
    decreases |raw|
  {
    if raw == [] then [] else [EntryAt(raw)] + Parsed(raw[EntryLen(raw[0])..])
  }

  lemma EntryRoundTrip(s: Sensor, rest: bytes)
    requires Known(s)
    ensures var raw := RawOne(s) + rest;
            && 0 < EntryLen(raw[0]) <= |raw| && EntryAt(raw) == s && raw[EntryLen(raw[0])..] == rest
  {
    var raw := RawOne(s) + rest;
    match s
    case Property(id) =>
      Le16RoundTrip(id);
      assert raw[1..3] == PutLe16(id);
    case Vendor(company, code) =>
      Le16RoundTrip(company);
      Le16RoundTrip(code);
      assert raw[1..3] == PutLe16(company) && raw[3..5] == PutLe16(code);
  }

  lemma {:induction false} RawSnoc(front: seq<Sensor>, s: Sensor)
    ensures Raw(front + [s]) == Raw(front) + RawOne(s)
  {
    hide RawOne;
    if front == [] {
      assert front + [s] == [s];
    } else {
      RawSnoc(front[1..], s);
      assert (front + [s])[1..] == front[1..] + [s];
    }
  }

  /** What the tag serialises parses back to its list of sensors, leaving out those of unknown kind. */
  lemma {:induction false} SensorsArrive(sensors: seq<Sensor>)
    ensures WellFormed(Raw(sensors)) && Parsed(Raw(sensors)) == OnlyKnown(sensors)
    decreases |sensors|
  {
    hide RawOne, EntryLen, EntryAt;
    if sensors != [] {
      var s, rest := sensors[0], sensors[1..];
      SensorsArrive(rest);
      if Known(s) {
        EntryRoundTrip(s, Raw(rest));
      } else {
        NoLayout(s);
        assert Raw(sensors) == Raw(rest);
      }
    }
  }

  lemma NoLayout(s: Sensor)
    ensures RawOne(s) == [] <==> !Known(s)
  {
  }

  function OnlyKnown(sensors: seq<Sensor>): seq<Sensor> {
    if sensors == [] then [] else (if Known(sensors[0]) then [sensors[0]] else []) + OnlyKnown(sensors[1..])
  }

  lemma {:induction false} AllKnown(sensors: seq<Sensor>)
    requires forall s | s in sensors :: Known(s)
    ensures OnlyKnown(sensors) == sensors
  {
    if sensors != [] {
      assert sensors[0] in sensors && forall s | s in sensors[1..] :: s in sensors;
      AllKnown(sensors[1..]);
    }
  }

  /** A well-formed raw string is the serialisation of what it parses to. */
  lemma {:induction false} RawArrives(raw: bytes)
    requires WellFormed(raw)
    ensures Raw(Parsed(raw)) == raw
    decreases |raw|
  {
    hide RawOne, EntryLen, EntryAt;
    if raw != [] {
      var n := EntryLen(raw[0]);
      RawArrives(raw[n..]);
      assert Parsed(raw)[1..] == Parsed(raw[n..]);
      EntryIsPrefix(raw);
    }
  }

  lemma EntryIsPrefix(raw: bytes)
    requires raw != [] && 0 < EntryLen(raw[0]) <= |raw|
    ensures RawOne(EntryAt(raw)) == raw[..EntryLen(raw[0])]
  {
    PutGet(raw[1..3]);
    if raw[0] == 1 { PutGet(raw[3..5]); }
  }

  lemma PutGet(b: bytes)
    requires |b| == 2
    ensures PutLe16(GetLe16(b)) == b
  {
  }

  /** esl_sensor_read: the loop over the sensors. */
  method SensorRead(sensors: seq<Sensor>) returns (data: bytes)
    requires forall s | s in sensors :: Proper(s)
    ensures data == Raw(sensors)
  {
    var buffer := new byte[5 * |sensors|](_ => 0);
    var size := 0;
    for i := 0 to |sensors|
      invariant size <= 5 * i && buffer[..size] == Raw(sensors[..i])
    {
      hide Raw;
      assert sensors[i] in sensors && sensors[..i + 1] == sensors[..i] + [sensors[i]];
      RawSnoc(sensors[..i], sensors[i]);
      ghost var before := buffer[..size];
      if Kind(sensors[i]) == 0 {
        CopyInto(buffer, size, [0] + PutLe16(sensors[i].id));
        assert buffer[..size + 3] == before + RawOne(sensors[i]);
        size := size + 3;
      } else if Kind(sensors[i]) == 1 {
        CopyInto(buffer, size, [1] + PutLe16(sensors[i].company) + PutLe16(sensors[i].code));
        assert buffer[..size + 5] == before + RawOne(sensors[i]);
        size := size + 5;
      }
    }
    assert sensors[..|sensors|] == sensors;
    data := buffer[..size];
  }

  lemma ParseStep(raw: bytes, idx: nat)
    requires idx < |raw| && WellFormed(raw[idx..])
    ensures var n := EntryLen(raw[idx]);
            && 0 < n && idx + n <= |raw| && WellFormed(raw[idx + n..])
            && Parsed(raw[idx..]) == [EntryAt(raw[idx..])] + Parsed(raw[idx + n..])
            && EntryAt(raw[idx..]) ==
                 (if raw[idx] == 0 then Property((raw[idx + 2] as int) * 0x100 + (raw[idx + 1] as int))
                  else Vendor((raw[idx + 2] as int) * 0x100 + (raw[idx + 1] as int),
                              (raw[idx + 4] as int) * 0x100 + (raw[idx + 3] as int)))
            && n == (if raw[idx] == 0 then 3 else 5)
  {
    var here, n := raw[idx..], EntryLen(raw[idx]);
    assert here[n..] == raw[idx + n..] && here[1..3] == raw[idx + 1..idx + 3];
    assert n == 5 ==> here[3..5] == raw[idx + 3..idx + 5];
  }

  /** parse_sensor_info_from_raw: terminates on well-formed strings, with as many sensors as entries. */
  method ParseSensorInfo(sensors: array<Sensor>, raw: bytes) returns (count: byte)
    requires WellFormed(raw) && |Parsed(raw)| <= sensors.Length && |Parsed(raw)| < 0x100
    modifies sensors
    ensures count == |Parsed(raw)| && sensors[..count] == Parsed(raw)
    ensures sensors[count..] == old(sensors[..])[count..]
  {
    hide WellFormed, Parsed, EntryAt, EntryLen;
    count := 0;
    var idx := 0;
    assert raw[0..] == raw;
    while idx < |raw|
      invariant idx <= |raw| && WellFormed(raw[idx..])
      invariant (count as int) + |Parsed(raw[idx..])| == |Parsed(raw)|
      invariant sensors[..count] + Parsed(raw[idx..]) == Parsed(raw)
      invariant forall k | count <= k < sensors.Length :: sensors[k] == old(sensors[k])
      decreases |raw| - idx
    {
      ParseStep(raw, idx);
      ghost var done, rest := sensors[..count], Parsed(raw[idx..]);
      if raw[idx] == 0 {
        sensors[count] := Property((raw[idx + 2] as int) * 0x100 + (raw[idx + 1] as int));
        idx := idx + 3;
      } else {
        sensors[count] := Vendor((raw[idx + 2] as int) * 0x100 + (raw[idx + 1] as int),
                                 (raw[idx + 4] as int) * 0x100 + (raw[idx + 3] as int));
        idx := idx + 5;
      }
      assert rest == [sensors[count]] + Parsed(raw[idx..]);
      assert sensors[..count + 1] == done + [sensors[count]];
      OneMoved(done, sensors[count], Parsed(raw[idx..]));
      count := count + 1;
    }
    NothingParsed();
    assert raw[idx..] == [];
  }

  lemma OneMoved(done: seq<Sensor>, s: Sensor, rest: seq<Sensor>)
    ensures done + ([s] + rest) == (done + [s]) + rest
  {
  }

  lemma NothingParsed()
    ensures WellFormed([]) && Parsed([]) == []
  {
  }
}
