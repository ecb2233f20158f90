/** The record format: header, payload if there is one, footer if there is one. */
module RecordSpec {
  import opened Bytes
  import opened Common

  /** A record as its accessors show it. */
  datatype Rec = Rec(kind: nat, payload: seq<byte>, uuid: Option<word32>)
  {
    predicate WellFormed() {
      kind < 0x8000 && |payload| < 0x1_0000
    }
  }

  datatype Parsed = Done(rec: Rec, count: nat) | Short

  /** The bytes a record is written as: TYPE and the footer flag share one word in
      the machine's order, the length follows in network order. */
  function Image(r: Rec): (s: seq<byte>)
    requires r.WellFormed()
    ensures |s| == 4 + |r.payload| + if r.uuid.Some? then 4 else 0
  {
    Memory16(r.kind + if r.uuid.Some? then 0x8000 else 0) + Memory16(Swap16(|r.payload|)) + r.payload +
    if r.uuid.Some? then Memory32(r.uuid.value) else []
  }

  /** What a read finds at the front of `s`. */
  function Parse(s: seq<byte>): Parsed
    requires |s| >= 4
  {
    var flags, length := Load16(s, 0), Swap16(Load16(s, 2));
    if |s| < 4 + length then Short
    else if flags < 0x8000 then Done(Rec(flags, s[4..4 + length], None), 4 + length)
    else if |s| < 8 + length then Short
    else Done(Rec(flags - 0x8000, s[4..4 + length], Some(Load32(s, 4 + length))), 8 + length)
  }

  /** The four parts of an image. */
  lemma ImageParts(r: Rec, s: seq<byte>)
    requires r.WellFormed() && |s| >= |Image(r)|
    ensures var n := |r.payload|;
            Image(r) <= s <==>
            && s[0..2] == Memory16(r.kind + if r.uuid.Some? then 0x8000 else 0) && s[2..4] == Memory16(Swap16(n))
            && s[4..4 + n] == r.payload && (r.uuid.Some? ==> s[4 + n..8 + n] == Memory32(r.uuid.value))
  {
    var n, e := |r.payload|, Image(r);
    assert e[0..2] == Memory16(r.kind + if r.uuid.Some? then 0x8000 else 0) && e[2..4] == Memory16(Swap16(n));
    assert e[4..4 + n] == r.payload && (r.uuid.Some? ==> e[4 + n..8 + n] == Memory32(r.uuid.value));
    if e <= s {
      assert s[..|e|] == e;
      assert s[0..2] == e[0..2] && s[2..4] == e[2..4] && s[4..4 + n] == e[4..4 + n];
      assert r.uuid.Some? ==> s[4 + n..8 + n] == e[4 + n..8 + n];
    }
    if s[0..2] == e[0..2] && s[2..4] == e[2..4] && s[4..4 + n] == e[4..4 + n] &&
       (r.uuid.Some? ==> s[4 + n..8 + n] == e[4 + n..8 + n])
    {
      assert s[..4 + n] == s[0..2] + s[2..4] + s[4..4 + n];
      assert r.uuid.Some? ==> s[..8 + n] == s[..4 + n] + s[4 + n..8 + n];
    }
  }

  /** A read returns the record `r` exactly when its image stands in front. */
  lemma ParseIffImage(s: seq<byte>, r: Rec)
    requires |s| >= 4
    ensures (exists n :: Parse(s) == Done(r, n)) <==> r.WellFormed() && Image(r) <= s
    ensures r.WellFormed() && Image(r) <= s ==> Parse(s) == Done(r, |Image(r)|)
  {
    hide Image, Memory16, Memory32, Load16, Load32, Swap16;
    if Parse(s).Done? && Parse(s).rec == r {
      ParsedIsWellFormed(s);
    }
    if r.WellFormed() && |s| >= |Image(r)| {
      var n := |r.payload|;
      ImageParts(r, s);
      LoadMemorySlice16(s, 0, r.kind + if r.uuid.Some? then 0x8000 else 0);
      LoadMemorySlice16(s, 2, Swap16(n));
      Swap16Twice(n);
      Swap16Twice(Load16(s, 2));
      if r.uuid.Some? {
        LoadMemorySlice32(s, 4 + n, r.uuid.value);
      }
    }
  }

  lemma ParsedIsWellFormed(s: seq<byte>)
    requires |s| >= 4 && Parse(s).Done?
    ensures Parse(s).rec.WellFormed() && Parse(s).count == |Image(Parse(s).rec)| <= |s|
  {
  }

  function Images(rs: seq<Rec>): seq<byte>
    requires forall i :: 0 <= i < |rs| ==> rs[i].WellFormed()
  {
    if rs == [] then [] else Image(rs[0]) + Images(rs[1..])
  }

  /** `k` reads in a row: the records, the count each read returned, and the
      bytes that are left. */
  datatype Reads = Reads(recs: seq<Rec>, counts: seq<nat>, rest: seq<byte>) | Failed

  function ReadAll(s: seq<byte>, k: nat): Reads {
    if k == 0 then Reads([], [], s)
    else if |s| < 4 || Parse(s).Short? || Parse(s).count > |s| then Failed
    else
      var first := Parse(s);
      match ReadAll(s[first.count..], k - 1)
      case Failed => Failed
      case Reads(recs, counts, rest) => Reads([first.rec] + recs, [first.count] + counts, rest)
  }

  function Sizes(rs: seq<Rec>): seq<nat>
    requires forall i :: 0 <= i < |rs| ==> rs[i].WellFormed()
  {
    if rs == [] then [] else [|Image(rs[0])|] + Sizes(rs[1..])
  }

  /** Reading back as many records as were written gives the same records with
      the same byte counts, and leaves exactly what stood behind them. */
  lemma {:induction false} ReadBack(rs: seq<Rec>, rest: seq<byte>)
    requires forall i :: 0 <= i < |rs| ==> rs[i].WellFormed()
    ensures ReadAll(Images(rs) + rest, |rs|) == Reads(rs, Sizes(rs), rest)
  {
    hide Image, Parse;
    if rs == [] {
      assert Images(rs) + rest == rest;
    } else {
      var s := Images(rs) + rest;
      assert s == Image(rs[0]) + (Images(rs[1..]) + rest);
      ParseIffImage(s, rs[0]);
      assert s[|Image(rs[0])|..] == Images(rs[1..]) + rest;
      ReadBack(rs[1..], rest);
      assert rs == [rs[0]] + rs[1..];
    }
  }

  /** No two lists of the same length are written as the same bytes. */
  lemma ImagesInjective(rs: seq<Rec>, ts: seq<Rec>)
    requires forall i :: 0 <= i < |rs| ==> rs[i].WellFormed()
    requires forall i :: 0 <= i < |ts| ==> ts[i].WellFormed()
    requires |rs| == |ts| && Images(rs) == Images(ts)
    ensures rs == ts
  {
    hide ReadAll;
    ReadBack(rs, []);
    ReadBack(ts, []);
  }
}
