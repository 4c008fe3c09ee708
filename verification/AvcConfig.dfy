/** Conversion of an AVC decoder configuration record to Annex B parameter sets. */
module AvcConfig {
  import opened Common

  type Bytes = seq<byte>

  /** Half-open slice of the input. */
  datatype Slice = Slice(from: nat, to: nat)

  const START_CODE: Bytes := [0, 0, 0, 1]

  function U16(data: Bytes, pos: nat): nat
    requires pos + 2 <= |data|
  {
    (data[pos] as int) * 256 + (data[pos + 1] as int)
  }

  // ---------------------------------------------------------------------
  // What the conversion emits, for any input.
  // ---------------------------------------------------------------------

  /** The slices that one loop over `count` length-prefixed units emits from `pos` on. A length that
      overruns the data is passed over, but not the bytes after it. */
  function UnitsFrom(data: Bytes, pos: nat, count: nat): (units: seq<Slice>)
    ensures forall u :: u in units ==> u.from <= u.to <= |data|
    decreases count
  {
    if count == 0 || pos + 2 >= |data| then [] else
    var p := pos + 2;
    var q := p + U16(data, pos);
    if q <= |data| then [Slice(p, q)] + UnitsFrom(data, q, count - 1) else UnitsFrom(data, p, count - 1)
  }

  /** Where that loop stops. */
  function EndFrom(data: Bytes, pos: nat, count: nat): (end: nat)
    requires pos <= |data|
    ensures pos <= end <= |data|
    decreases count
  {
    if count == 0 || pos + 2 >= |data| then pos else
    var p := pos + 2;
    var q := p + U16(data, pos);
    if q <= |data| then EndFrom(data, q, count - 1) else EndFrom(data, p, count - 1)
  }

  /** The SPS slices and the position after them. */
  function Sps(data: Bytes): (seq<Slice>, nat)
    requires |data| > 5
  {
    if 7 < |data| then (UnitsFrom(data, 6, data[5] % 32), EndFrom(data, 6, data[5] % 32)) else ([], 5)
  }

  function Pps(data: Bytes, pos: nat): seq<Slice> {
    if pos + 1 < |data| then UnitsFrom(data, pos + 1, data[pos]) else []
  }

  /** Slices of the record that are written out. */
  function ParameterSets(data: Bytes): (units: seq<Slice>)
    ensures forall u :: u in units ==> u.from <= u.to <= |data|
  {
    if |data| <= 5 then [] else Sps(data).0 + Pps(data, Sps(data).1)
  }

  /** Each slice lies in [lo, hi), after its own two length bytes, which follow the slice before it. */
  ghost predicate InOrder(units: seq<Slice>, lo: nat, hi: nat) {
    if units == [] then lo <= hi
    else lo + 2 <= units[0].from <= units[0].to <= hi && InOrder(units[1..], units[0].to, hi)
  }

  lemma {:induction false} InOrderMonotone(units: seq<Slice>, lo: nat, lo': nat, hi: nat)
    requires InOrder(units, lo, hi) && lo' <= lo
    ensures InOrder(units, lo', hi)
  {
  }

  lemma {:induction false} InOrderAppend(a: seq<Slice>, b: seq<Slice>, lo: nat, mid: nat, hi: nat)
    requires InOrder(a, lo, mid) && InOrder(b, mid, hi)
    ensures InOrder(a + b, lo, hi)
  {
    if a == [] {
      assert a + b == b;
      InOrderMonotone(b, mid, lo, hi);
    } else {
      InOrderAppend(a[1..], b, a[0].to, mid, hi);
      InOrderBounds(a, lo, mid);
      InOrderBounds(b, mid, hi);
      assert (a + b)[1..] == a[1..] + b;
    }
  }

  lemma {:induction false} InOrderBounds(units: seq<Slice>, lo: nat, hi: nat)
    requires InOrder(units, lo, hi)
    ensures lo <= hi
    ensures forall i :: 0 <= i < |units| ==> lo + 2 <= units[i].from <= units[i].to <= hi
    ensures forall i, j :: 0 <= i < j < |units| ==> units[i].to + 2 <= units[j].from
  {
    if units != [] {
      var rest := units[1..];
      InOrderBounds(rest, units[0].to, hi);
      forall j | 0 < j < |units|
        ensures units[0].to + 2 <= units[j].from <= units[j].to <= hi
      {
        assert units[j] == rest[j - 1];
      }
      forall i, j | 0 < i < j < |units|
        ensures units[i].to + 2 <= units[j].from
      {
        assert units[i] == rest[i - 1] && units[j] == rest[j - 1];
      }
    }
  }

  lemma {:induction false} UnitsFromInOrder(data: Bytes, pos: nat, count: nat)
    requires pos <= |data|
    ensures InOrder(UnitsFrom(data, pos, count), pos, EndFrom(data, pos, count))
    ensures |UnitsFrom(data, pos, count)| <= count
    decreases count
  {
    if count > 0 && pos + 2 < |data| {
      var p := pos + 2;
      var q := p + U16(data, pos);
      if q <= |data| {
        UnitsFromInOrder(data, q, count - 1);
        assert UnitsFrom(data, pos, count)[1..] == UnitsFrom(data, q, count - 1);
      } else {
        UnitsFromInOrder(data, p, count - 1);
        InOrderMonotone(UnitsFrom(data, p, count - 1), p, pos, EndFrom(data, p, count - 1));
      }
    }
  }

  /** Whatever bytes are stored as codec data, the units written are disjoint, increasing slices of
      them, none reaching into the first five bytes, and at most 31 + 255 in number. */
  lemma ParameterSetsInOrder(data: Bytes)
    ensures var units := ParameterSets(data);
            && |units| <= 31 + 255
            && (forall i :: 0 <= i < |units| ==> 5 + 2 <= units[i].from <= units[i].to <= |data|)
            && (forall i, j :: 0 <= i < j < |units| ==> units[i].to + 2 <= units[j].from)
  {
    if |data| > 5 {
      var (sps, pos) := Sps(data);
      var pps := Pps(data, pos);
      if 7 < |data| {
        UnitsFromInOrder(data, 6, data[5] % 32);
      }
      InOrderMonotone(sps, if 7 < |data| then 6 else 5, 5, pos);
      if pos + 1 < |data| {
        UnitsFromInOrder(data, pos + 1, data[pos]);
        var end := EndFrom(data, pos + 1, data[pos]);
        InOrderMonotone(pps, pos + 1, pos, end);
        InOrderAppend(sps, pps, 5, pos, end);
        InOrderBounds(sps + pps, 5, end);
      } else {
        InOrderBounds(sps, 5, pos);
      }
    }
  }

  function Emit(data: Bytes, units: seq<Slice>): Bytes
    requires forall u :: u in units ==> u.from <= u.to <= |data|
  {
    if units == [] then [] else START_CODE + data[units[0].from..units[0].to] + Emit(data, units[1..])
  }

  lemma {:induction false} EmitAppend(data: Bytes, a: seq<Slice>, b: seq<Slice>)
    requires forall u :: u in a + b ==> u.from <= u.to <= |data|
    ensures forall u :: u in a ==> u in a + b
    ensures forall u :: u in b ==> u in a + b
    ensures Emit(data, a + b) == Emit(data, a) + Emit(data, b)
  {
    if a == [] {
      assert a + b == b;
    } else {
      assert (a + b)[1..] == a[1..] + b;
      EmitAppend(data, a[1..], b);
    }
  }

  lemma LoopStep(data: Bytes, pos: nat, count: nat)
    requires 0 < count && pos + 2 < |data|
    ensures var p := pos + 2;
            var q := p + U16(data, pos);
            if q <= |data|
            then Emit(data, UnitsFrom(data, pos, count)) ==
              START_CODE + data[p..q] + Emit(data, UnitsFrom(data, q, count - 1))
                 && EndFrom(data, pos, count) == EndFrom(data, q, count - 1)
            else Emit(data, UnitsFrom(data, pos, count)) == Emit(data, UnitsFrom(data, p, count - 1))
                 && EndFrom(data, pos, count) == EndFrom(data, p, count - 1)
  {
    var q := pos + 2 + U16(data, pos);
    if q <= |data| {
      assert UnitsFrom(data, pos, count)[1..] == UnitsFrom(data, q, count - 1);
    }
  }

  lemma LoopDone(data: Bytes, pos: nat, count: nat)
    requires pos <= |data| && (count == 0 || pos + 2 >= |data|)
    ensures Emit(data, UnitsFrom(data, pos, count)) == [] && EndFrom(data, pos, count) == pos
  {
  }

  /** One of the two conversion loops. */
  method WriteUnits(data: Bytes, start: nat, count: nat, written: Bytes) returns (out: Bytes, pos: nat)
    requires start <= |data|
    ensures pos == EndFrom(data, start, count)
    ensures out == written + Emit(data, UnitsFrom(data, start, count))
  {
    hide UnitsFrom; hide EndFrom; hide Emit; hide U16;
    out, pos := written, start;
    var i := 0;
    while i < count && pos + 2 < |data|
      invariant 0 <= i <= count && pos <= |data|
      invariant EndFrom(data, start, count) == EndFrom(data, pos, count - i)
      invariant written + Emit(data, UnitsFrom(data, start, count)) == out + Emit(data, UnitsFrom(data, pos, count - i))
    {
      LoopStep(data, pos, count - i);
      var len := U16(data, pos);
      pos := pos + 2;
      if pos + len <= |data| {
        out := out + START_CODE + data[pos..pos + len];
        pos := pos + len;
      }
      i := i + 1;
    }
    LoopDone(data, pos, count - i);
  }

  /** The parameter sets written ahead of a clip. */
  method WriteParameterSets(data: Bytes) returns (out: Bytes)
    ensures out == Emit(data, ParameterSets(data))
  {
    out := [];
    if |data| > 5 {
      ghost var (sps, ppsPos) := Sps(data);
      EmitAppend(data, sps, Pps(data, ppsPos));
      hide UnitsFrom; hide EndFrom;
      var pos := 5;
      if pos + 2 < |data| {
        var spsCount := data[pos] % 32;
        pos := pos + 1;
        out, pos := WriteUnits(data, pos, spsCount, out);
      }
      assert pos == ppsPos && out == Emit(data, sps);
      if pos + 1 < |data| {
        var ppsCount := data[pos];
        pos := pos + 1;
        out, pos := WriteUnits(data, pos, ppsCount, out);
      }
    }
  }

  // ---------------------------------------------------------------------
  // Well-formed records (section 5.2.4.1 of ISO/IEC 14496-15).
  // ---------------------------------------------------------------------

  type Unit = u: Bytes | |u| < 0x1_0000

  /** A 16-bit length and the unit. */
  function Field(u: Unit): Bytes {
    [(|u| / 256) as byte, (|u| % 256) as byte] + u
  }

  function Fields(us: seq<Unit>): Bytes {
    if us == [] then [] else Field(us[0]) + Fields(us[1..])
  }

  /** `header` is version, profile, compatibility, level and length size; `reserved` the three bits
      above the SPS count; `ext` whatever a high profile appends. */
  datatype Record = Record(header: Bytes, reserved: nat, sps: seq<Unit>, pps: seq<Unit>, ext: Bytes) {
    ghost predicate Valid() {
      |header| == 5 && reserved < 8 && |sps| < 32 && |pps| < 256
    }

    function Encode(): Bytes
      requires Valid()
    {
      header + [(reserved * 32 + |sps|) as byte] + Fields(sps) + [|pps| as byte] + Fields(pps) + ext
    }
  }

  /** Annex B of ITU-T H.264: every unit behind a four-byte start code. */
  function AnnexB(us: seq<Unit>): Bytes {
    if us == [] then [] else START_CODE + us[0] + AnnexB(us[1..])
  }

  /** The units the loop sees: all of them, except an empty one at the very end of the data. */
  function Seen(us: seq<Unit>, rest: Bytes): seq<Unit> {
    if us != [] && Last(us) == [] && rest == [] then Front(us) else us
  }

  /** One round of the loop over a well-formed field that is not the empty end of the data. */
  lemma LoopOverField(pre: Bytes, u: Unit, tail: Bytes, count: nat)
    requires count > 0 && |u| + |tail| > 0
    ensures var data := pre + (Field(u) + tail);
            var next := pre + Field(u);
            && data == next + tail
            && Emit(data, UnitsFrom(data, |pre|, count)) ==
                START_CODE + u + Emit(data, UnitsFrom(data, |next|, count - 1))
            && EndFrom(data, |pre|, count) == EndFrom(data, |next|, count - 1)
  {
    hide UnitsFrom; hide EndFrom; hide Emit;
    var data := pre + (Field(u) + tail);
    assert data[|pre|] == |u| / 256 && data[|pre| + 1] == |u| % 256;
    assert data[|pre| + 2..|pre| + 2 + |u|] == u;
    LoopStep(data, |pre|, count);
    assert data == (pre + Field(u)) + tail;
  }

  lemma {:induction false} LoopOverFields(pre: Bytes, us: seq<Unit>, rest: Bytes)
    ensures var data := pre + (Fields(us) + rest);
            Emit(data, UnitsFrom(data, |pre|, |us|)) == AnnexB(Seen(us, rest))
            && (rest != [] ==> EndFrom(data, |pre|, |us|) == |pre| + |Fields(us)|)
    decreases us
  {
    hide UnitsFrom; hide EndFrom; hide Emit;
    var data := pre + (Fields(us) + rest);
    if us == [] || (us == [[]] && rest == []) {
      assert us != [] ==> Fields(us) == Field(us[0]) + Fields(us[1..]);
      LoopDone(data, |pre|, |us|);
    } else {
      var tail := Fields(us[1..]) + rest;
      assert Fields(us) + rest == Field(us[0]) + tail;
      assert |us[0]| + |tail| > 0 by {
        FieldsSize(us[1..]);
      }
      LoopOverField(pre, us[0], tail, |us|);
      LoopOverFields(pre + Field(us[0]), us[1..], rest);
      SeenStep(us, rest);
    }
  }

  /** A length that overruns the data costs one unit of the count and is passed over; the units behind
      it are read as if it were not there. */
  lemma OverrunIsPassedOver(pre: Bytes, len: Unit, us: seq<Unit>, rest: Bytes)
    requires |len| > |Fields(us)| + |rest| > 0
    ensures var data := pre + (Field(len)[..2] + (Fields(us) + rest));
            Emit(data, UnitsFrom(data, |pre|, |us| + 1)) == AnnexB(Seen(us, rest))
  {
    hide UnitsFrom; hide EndFrom; hide Emit; hide Fields;
    var tail := Fields(us) + rest;
    var data := pre + (Field(len)[..2] + tail);
    assert data[|pre|] == |len| / 256 && data[|pre| + 1] == |len| % 256;
    LoopStep(data, |pre|, |us| + 1);
    assert data == (pre + Field(len)[..2]) + tail;
    LoopOverFields(pre + Field(len)[..2], us, rest);
  }

  /** Each unit written is as long as the two bytes in front of it say. */
  lemma {:induction false} UnitsCarryLengths(data: Bytes, pos: nat, count: nat)
    ensures forall u :: u in UnitsFrom(data, pos, count) ==> u.from >= 2 && U16(data, u.from - 2) == u.to - u.from
    decreases count
  {
    if count > 0 && pos + 2 < |data| {
      UnitsCarryLengths(data, pos + 2, count - 1);
      UnitsCarryLengths(data, pos + 2 + U16(data, pos), count - 1);
    }
  }

  lemma SeenStep(us: seq<Unit>, rest: Bytes)
    requires us != [] && !(us == [[]] && rest == [])
    ensures AnnexB(Seen(us, rest)) == START_CODE + us[0] + AnnexB(Seen(us[1..], rest))
  {
    assert Seen(us, rest)[1..] == Seen(us[1..], rest);
  }

  lemma RecordLayout(r: Record)
    requires r.Valid()
    ensures var data := r.Encode();
            var pre := data[..6];
            var ppsAt := 6 + |Fields(r.sps)|;
            && |data| == ppsAt + 1 + |Fields(r.pps)| + |r.ext|
            && data[5] % 32 == |r.sps| && data[ppsAt] == |r.pps|
            && data == data[..6] + (Fields(r.sps) + ([|r.pps| as byte] + Fields(r.pps) + r.ext))
            && data == data[..ppsAt + 1] + (Fields(r.pps) + r.ext)
  {
    var data := r.Encode();
    hide Fields;
    var pre := r.header + [(r.reserved * 32 + |r.sps|) as byte];
    assert data[..6] == pre && data[5] == r.reserved * 32 + |r.sps|;
    assert data == data[..6] + (Fields(r.sps) + ([|r.pps| as byte] + Fields(r.pps) + r.ext));
  }

  lemma RecordUnits(r: Record)
    requires r.Valid()
    ensures var data := r.Encode();
            ParameterSets(data) == UnitsFrom(data, 6, |r.sps|) + UnitsFrom(data, 6 + |Fields(r.sps)| + 1, |r.pps|)
  {
    hide r.Encode; hide Fields; hide EndFrom; hide U16;
    var data := r.Encode();
    assert 7 + 2 * |r.sps| + 2 * |r.pps| <= |data| && data[5] % 32 == |r.sps| by {
      RecordLayout(r);
      FieldsSize(r.sps);
      FieldsSize(r.pps);
    }
    var ppsAt := 6 + |Fields(r.sps)|;
    assert ppsAt < |data| && data[ppsAt] == |r.pps| && (|data| <= ppsAt + 1 ==> r.pps == []) by {
      RecordLayout(r);
      FieldsSize(r.pps);
    }
    assert EndFrom(data, 6, |r.sps|) == ppsAt by {
      RecordSps(r);
    }
  }

  /** What is written for a well-formed record. */
  lemma RecordOutput(r: Record)
    requires r.Valid()
    ensures var data := r.Encode();
            Emit(data, ParameterSets(data)) == AnnexB(r.sps) + AnnexB(Seen(r.pps, r.ext))
  {
    hide *;
    var data := r.Encode();
    RecordUnits(r);
    RecordSps(r);
    RecordPps(r);
    EmitAppend(data, UnitsFrom(data, 6, |r.sps|), UnitsFrom(data, 6 + |Fields(r.sps)| + 1, |r.pps|));
  }

  lemma RecordSps(r: Record)
    requires r.Valid()
    ensures var data := r.Encode();
            Emit(data, UnitsFrom(data, 6, |r.sps|)) == AnnexB(r.sps)
            && |data| >= 6 && EndFrom(data, 6, |r.sps|) == 6 + |Fields(r.sps)| < |data|
  {
    RecordLayout(r);
    LoopOverFields(r.Encode()[..6], r.sps, [|r.pps| as byte] + Fields(r.pps) + r.ext);
  }

  lemma RecordPps(r: Record)
    requires r.Valid()
    ensures var data := r.Encode();
            Emit(data, UnitsFrom(data, 6 + |Fields(r.sps)| + 1, |r.pps|)) == AnnexB(Seen(r.pps, r.ext))
  {
    RecordLayout(r);
    LoopOverFields(r.Encode()[..6 + |Fields(r.sps)| + 1], r.pps, r.ext);
  }

  lemma {:induction false} FieldsSize(us: seq<Unit>)
    ensures |Fields(us)| >= 2 * |us|
  {
    if us != [] {
      FieldsSize(us[1..]);
    }
  }

  lemma {:induction false} AnnexBAppend(a: seq<Unit>, b: seq<Unit>)
    ensures AnnexB(a + b) == AnnexB(a) + AnnexB(b)
  {
    if a == [] {
      assert a + b == b;
    } else {
      assert (a + b)[1..] == a[1..] + b;
      AnnexBAppend(a[1..], b);
    }
  }

  lemma AnnexBEmptyUnit()
    ensures AnnexB([[]]) == START_CODE
  {
  }

  /** For a well-formed record, every unit is written, SPS before PPS, unless the record ends in a
      PPS of length zero; that one's start code is then missing. */
  lemma ConversionIsExact(r: Record)
    requires r.Valid()
    ensures var data := r.Encode();
            Emit(data, ParameterSets(data)) == AnnexB(r.sps + r.pps)
            <==> !(r.pps != [] && Last(r.pps) == [] && r.ext == [])
  {
    hide Emit; hide ParameterSets; hide r.Encode; hide AnnexB;
    RecordOutput(r);
    AnnexBAppend(r.sps, r.pps);
    if Seen(r.pps, r.ext) != r.pps {
      assert r.pps == Front(r.pps) + [[]];
      AnnexBAppend(Front(r.pps), [[]]);
      AnnexBEmptyUnit();
    }
  }

  /** Such a record: one SPS, and one PPS of length zero. */
  lemma EmptyPpsIsLost()
    ensures var r := Record([1, 66, 0, 30, 255], 7, [[103]], [[]], []);
            && r.Valid()
            && Emit(r.Encode(), ParameterSets(r.Encode())) == START_CODE + [103]
            && AnnexB(r.sps + r.pps) == START_CODE + [103] + START_CODE
  {
    var r := Record([1, 66, 0, 30, 255], 7, [[103]], [[]], []);
    assert r.Valid() && r.sps + r.pps == [[103], []];
    RecordOutput(r);
  }

  // ---------------------------------------------------------------------
  // Reading Annex B back (Annex B of ITU-T H.264).
  // ---------------------------------------------------------------------

  /** Three bytes 00 00 01, or also 00 00 00 when looking for the end of a unit. */
  predicate Marks(s: Bytes, i: nat, end: bool) {
    i + 2 < |s| && s[i] == 0 && s[i + 1] == 0 && (s[i + 2] == 1 || (end && s[i + 2] == 0))
  }

  function NextMark(s: Bytes, i: nat, end: bool): (k: nat)
    requires i <= |s|
    ensures i <= k <= |s|
    ensures forall j :: i <= j < k ==> !Marks(s, j, end)
    ensures k < |s| ==> Marks(s, k, end)
    decreases |s| - i
  {
    if i == |s| || Marks(s, i, end) then i else NextMark(s, i + 1, end)
  }

  /** The units of a byte stream. */
  function Split(s: Bytes): seq<Bytes>
    decreases |s|
  {
    var start := NextMark(s, 0, false);
    if start == |s| then [] else
    var end := NextMark(s, start + 3, true);
    [s[start + 3..end]] + Split(s[end..])
  }

  /** What section 7.4.1 of ITU-T H.264 asks of a unit: no start code inside, no trailing zero. */
  ghost predicate IsNalUnit(u: Bytes) {
    u != [] && Last(u) != 0 && forall i :: 0 <= i ==> !Marks(u, i, true)
  }

  lemma UnitEnds(u: Bytes, rest: Bytes)
    requires IsNalUnit(u) && (rest == [] || START_CODE <= rest)
    ensures NextMark(START_CODE + u + rest, 4, true) == 4 + |u|
  {
    var s := START_CODE + u + rest;
    forall j | 4 <= j < 4 + |u|
      ensures !Marks(s, j, true)
    {
      assert !Marks(u, j - 4, true);
      assert s[4 + |u| - 1] == Last(u);
    }
    if rest != [] {
      assert s[4 + |u|] == rest[0] && s[4 + |u| + 1] == rest[1] && s[4 + |u| + 2] == rest[2];
      assert Marks(s, 4 + |u|, true);
    }
  }

  lemma {:induction false} SplitOfAnnexB(us: seq<Unit>)
    requires forall u :: u in us ==> IsNalUnit(u)
    ensures Split(AnnexB(us)) == us
  {
    if us != [] {
      var rest := AnnexB(us[1..]);
      var s := START_CODE + us[0] + rest;
      assert !Marks(s, 0, false) && Marks(s, 1, false);
      assert NextMark(s, 0, false) == 1;
      UnitEnds(us[0], rest);
      assert s[4..4 + |us[0]|] == us[0] && s[4 + |us[0]|..] == rest;
      SplitOfAnnexB(us[1..]);
    }
  }

  /** A decoder that splits the bytes written for a record of proper NAL units finds those units. */
  lemma ConversionRoundTrip(r: Record)
    requires r.Valid() && forall u :: u in r.sps + r.pps ==> IsNalUnit(u)
    ensures Split(Emit(r.Encode(), ParameterSets(r.Encode()))) == r.sps + r.pps
  {
    assert r.pps != [] ==> Last(r.pps) in r.sps + r.pps;
    ConversionIsExact(r);
    SplitOfAnnexB(r.sps + r.pps);
  }
}
