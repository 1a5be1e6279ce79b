/** PSF fonts: parsing, glyph bitmaps, and the two unicode tables against their meaning as lists of records. */
module Fonts {
  import opened Bits
  import opened Options
  import opened Utf8

  // ----- tables as lists of records -----

  /** The least record whose characters include `target`. */
  function FindFirst(sets: seq<seq<int>>, target: int): (r: Option<nat>)
    ensures r.None? ==> forall i :: 0 <= i < |sets| ==> target !in sets[i]
    ensures r.Some? ==> r.value < |sets| && target in sets[r.value]
    ensures r.Some? ==> forall i :: 0 <= i < r.value ==> target !in sets[i]
  {
    if sets == [] then None
    else if target in sets[0] then Some(0)
    else match FindFirst(sets[1..], target)
      case None => None
      case Some(k) => Some(k + 1)
  }

  function Shift(r: Option<nat>, d: nat): Option<nat> {
    match r case None => None case Some(k) => Some(k + d)
  }

  lemma FirstOf(sets: seq<seq<int>>, first: seq<int>, rest: seq<seq<int>>, target: int)
    requires sets == [first] + rest
    ensures FindFirst(sets, target) == if target in first then Some(0) else Shift(FindFirst(rest, target), 1)
  {
    assert sets[0] == first && sets[1..] == rest;
  }

  /** Looking through the first set and then the rest, counting from `glyph`. */
  lemma FirstFrom(sets: seq<seq<int>>, first: seq<int>, rest: seq<seq<int>>, target: int, glyph: nat)
    requires sets == [first] + rest
    ensures Shift(FindFirst(sets, target), glyph)
         == if target in first then Some(glyph) else Shift(FindFirst(rest, target), glyph + 1)
  {
    FirstOf(sets, first, rest, target);
  }

  /** One glyph's entry in a table: characters it draws by themselves, then combining sequences it draws. */
  datatype Record<+C> = Record(direct: seq<C>, sequences: seq<seq<C>>)

  /** The characters each glyph lists directly. */
  function Direct(recs: seq<Record<int>>): (sets: seq<seq<int>>)
    ensures |sets| == |recs|
    ensures forall i :: 0 <= i < |recs| ==> sets[i] == recs[i].direct
  {
    if recs == [] then [] else [recs[0].direct] + Direct(recs[1..])
  }

  // ----- PSF1: 16-bit words -----

  function WordOf(b: seq<Byte>): nat
    requires |b| >= 2
  {
    b[0] as int + 256 * (b[1] as int)
  }

  /** Skips a combining sequence, up to the next marker. */
  function SkipSequence(b: seq<Byte>): (rest: seq<Byte>)
    ensures |rest| <= |b|
  {
    if |b| < 2 || WordOf(b) == 0xFFFF || WordOf(b) == 0xFFFE then b else SkipSequence(b[2..])
  }

  function ScanV1(b: seq<Byte>, glyph: nat, count: nat, target: int): Option<nat>
    decreases |b|
  {
    if glyph >= count || |b| < 2 then None
    else
      var w := WordOf(b);
      if w == 0xFFFF then ScanV1(b[2..], glyph + 1, count, target)
      else if w == 0xFFFE then ScanV1(SkipSequence(b[2..]), glyph, count, target)
      else if w == target then Some(glyph)
      else ScanV1(b[2..], glyph, count, target)
  }

  /** The glyph whose record lists `target` directly, by one pass over the words of a PSF1 table. */
  method UnicodeLookupV1(bytes: seq<Byte>, glyphCount: nat, target: int) returns (r: Option<nat>)
    ensures r == ScanV1(bytes, 0, glyphCount, target)
  {
    var pos, glyph := 0, 0;
    while glyph < glyphCount && pos + 2 <= |bytes|
      invariant 0 <= pos <= |bytes|
      invariant ScanV1(bytes, 0, glyphCount, target) == ScanV1(bytes[pos..], glyph, glyphCount, target)
      decreases |bytes| - pos
    {
      var w := WordOf(bytes[pos..pos + 2]);
      assert WordOf(bytes[pos..]) == w && bytes[pos..][2..] == bytes[pos + 2..];
      pos := pos + 2;
      if w == 0xFFFF {
        glyph := glyph + 1;
      } else if w == 0xFFFE {
        ghost var begin := pos;
        while pos + 2 <= |bytes|
          invariant begin <= pos <= |bytes|
          invariant SkipSequence(bytes[begin..]) == SkipSequence(bytes[pos..])
        {
          var w2 := WordOf(bytes[pos..pos + 2]);
          assert WordOf(bytes[pos..]) == w2 && bytes[pos..][2..] == bytes[pos + 2..];
          pos := pos + 2;
          if w2 == 0xFFFF || w2 == 0xFFFE {
            pos := pos - 2;
            break;
          }
        }
        assert SkipSequence(bytes[begin..]) == bytes[pos..];
      } else if w == target {
        return Some(glyph);
      }
    }
    return None;
  }

  type Plain = w: int | 0 <= w < 0xFFFE

  type RecordV1 = Record<Plain>

  function Le(w: int): seq<Byte>
    requires 0 <= w <= 0xFFFF
  {
    [w % 256, w / 256]
  }

  function Words(ws: seq<Plain>): seq<Byte> {
    if ws == [] then [] else Le(ws[0]) + Words(ws[1..])
  }

  function SequencesV1(seqs: seq<seq<Plain>>): seq<Byte> {
    if seqs == [] then [] else Le(0xFFFE) + Words(seqs[0]) + SequencesV1(seqs[1..])
  }

  function EncodeV1(r: RecordV1): seq<Byte> {
    Words(r.direct) + SequencesV1(r.sequences) + Le(0xFFFF)
  }

  function TableV1(recs: seq<RecordV1>): seq<Byte> {
    if recs == [] then [] else EncodeV1(recs[0]) + TableV1(recs[1..])
  }

  lemma LeReads(w: int, rest: seq<Byte>)
    requires 0 <= w <= 0xFFFF
    ensures WordOf(Le(w) + rest) == w && (Le(w) + rest)[2..] == rest
  {
  }

  lemma {:induction false} ScanWords(ws: seq<Plain>, rest: seq<Byte>, glyph: nat, count: nat, target: int)
    requires glyph < count
    ensures ScanV1(Words(ws) + rest, glyph, count, target)
         == if target in ws then Some(glyph) else ScanV1(rest, glyph, count, target)
  {
    if ws == [] {
      assert Words(ws) + rest == rest;
    } else {
      var tail := Words(ws[1..]) + rest;
      assert Words(ws) + rest == Le(ws[0]) + tail;
      LeReads(ws[0], tail);
      ScanWords(ws[1..], rest, glyph, count, target);
      assert target in ws <==> target == ws[0] || target in ws[1..];
    }
  }

  lemma {:induction false} SkipWords(ws: seq<Plain>, marker: int, rest: seq<Byte>)
    requires marker == 0xFFFF || marker == 0xFFFE
    ensures SkipSequence(Words(ws) + (Le(marker) + rest)) == Le(marker) + rest
  {
    LeReads(marker, rest);
    if ws == [] {
      assert Words(ws) + (Le(marker) + rest) == Le(marker) + rest;
    } else {
      var tail := Words(ws[1..]) + (Le(marker) + rest);
      assert Words(ws) + (Le(marker) + rest) == Le(ws[0]) + tail;
      LeReads(ws[0], tail);
      SkipWords(ws[1..], marker, rest);
    }
  }

  lemma Assoc<T>(u: seq<T>, v: seq<T>, w: seq<T>)
    ensures (u + v) + w == u + (v + w)
  {
  }

  /** What follows a record's direct words always opens with a marker. */
  lemma OpensWithMarker(seqs: seq<seq<Plain>>, rest: seq<Byte>) returns (marker: int, more: seq<Byte>)
    ensures marker == 0xFFFF || marker == 0xFFFE
    ensures SequencesV1(seqs) + (Le(0xFFFF) + rest) == Le(marker) + more
  {
    if seqs == [] {
      marker, more := 0xFFFF, rest;
      assert SequencesV1(seqs) + (Le(0xFFFF) + rest) == Le(0xFFFF) + rest;
    } else {
      var words, after := Words(seqs[0]), SequencesV1(seqs[1..]);
      marker, more := 0xFFFE, (words + after) + (Le(0xFFFF) + rest);
      Assoc(Le(0xFFFE), words, after);
      Assoc(Le(0xFFFE), words + after, Le(0xFFFF) + rest);
    }
  }

  lemma {:induction false} ScanSequences(seqs: seq<seq<Plain>>, rest: seq<Byte>, glyph: nat, count: nat, target: int)
    requires glyph < count
    ensures ScanV1(SequencesV1(seqs) + (Le(0xFFFF) + rest), glyph, count, target)
         == ScanV1(rest, glyph + 1, count, target)
  {
    var end := Le(0xFFFF) + rest;
    if seqs == [] {
      assert SequencesV1(seqs) + end == end;
      LeReads(0xFFFF, rest);
    } else {
      var words, tail := Words(seqs[0]), SequencesV1(seqs[1..]) + end;
      SequenceOpens(seqs, end);
      LeReads(0xFFFE, words + tail);
      var marker, more := OpensWithMarker(seqs[1..], rest);
      SkipWords(seqs[0], marker, more);
      ScanSequences(seqs[1..], rest, glyph, count, target);
    }
  }

  lemma SequenceOpens(seqs: seq<seq<Plain>>, end: seq<Byte>)
    requires seqs != []
    ensures SequencesV1(seqs) + end == Le(0xFFFE) + (Words(seqs[0]) + (SequencesV1(seqs[1..]) + end))
  {
    var words, after := Words(seqs[0]), SequencesV1(seqs[1..]);
    Assoc(Le(0xFFFE), words, after);
    Assoc(Le(0xFFFE), words + after, end);
    Assoc(words, after, end);
  }

  lemma RecordOpensV1(recs: seq<RecordV1>, rest: seq<Byte>)
    requires recs != []
    ensures TableV1(recs) + rest ==
            Words(recs[0].direct) + (SequencesV1(recs[0].sequences) + (Le(0xFFFF) + (TableV1(recs[1..]) + rest)))
  {
    var w, q, e, t := Words(recs[0].direct), SequencesV1(recs[0].sequences), Le(0xFFFF), TableV1(recs[1..]);
    Assoc(w + q + e, t, rest);
    Assoc(w + q, e, t + rest);
    Assoc(w, q, e + (t + rest));
  }

  lemma ScanRecord(r: RecordV1, after: seq<Byte>, glyph: nat, count: nat, target: int)
    requires glyph < count
    ensures ScanV1(Words(r.direct) + (SequencesV1(r.sequences) + (Le(0xFFFF) + after)), glyph, count, target)
         == if target in r.direct then Some(glyph) else ScanV1(after, glyph + 1, count, target)
  {
    ScanWords(r.direct, SequencesV1(r.sequences) + (Le(0xFFFF) + after), glyph, count, target);
    ScanSequences(r.sequences, after, glyph, count, target);
  }

  lemma ScanFirstRecord(recs: seq<RecordV1>, rest: seq<Byte>, glyph: nat, count: nat, target: int)
    requires recs != [] && glyph < count
    ensures ScanV1(TableV1(recs) + rest, glyph, count, target)
         == if target in recs[0].direct then Some(glyph)
            else ScanV1(TableV1(recs[1..]) + rest, glyph + 1, count, target)
  {
    RecordOpensV1(recs, rest);
    ScanRecord(recs[0], TableV1(recs[1..]) + rest, glyph, count, target);
  }

  lemma LookupV1End(rest: seq<Byte>, glyph: nat, count: nat, target: int)
    requires glyph == count || (glyph <= count && |rest| < 2)
    ensures ScanV1(TableV1([]) + rest, glyph, count, target) == None
  {
    assert TableV1([]) + rest == rest;
  }

  lemma LookupV1Step(recs: seq<RecordV1>, rest: seq<Byte>, glyph: nat, count: nat, target: int)
    requires recs != [] && glyph < count
    requires ScanV1(TableV1(recs[1..]) + rest, glyph + 1, count, target)
          == Shift(FindFirst(Direct(recs[1..]), target), glyph + 1)
    ensures ScanV1(TableV1(recs) + rest, glyph, count, target) == Shift(FindFirst(Direct(recs), target), glyph)
  {
    ScanFirstRecord(recs, rest, glyph, count, target);
    FirstFrom(Direct(recs), recs[0].direct, Direct(recs[1..]), target, glyph);
  }

  /**
   * On a table built from records the PSF1 scan finds the least glyph that lists the character directly,
   * or none; it never matches inside a sequence and never looks past the last glyph's record.
   */
  lemma {:induction false} LookupV1Right(recs: seq<RecordV1>, rest: seq<Byte>, glyph: nat, count: nat, target: int)
    requires glyph + |recs| == count || (glyph + |recs| <= count && |rest| < 2)
    ensures ScanV1(TableV1(recs) + rest, glyph, count, target) == Shift(FindFirst(Direct(recs), target), glyph)
    decreases |recs|
  {
    if recs == [] {
      LookupV1End(rest, glyph, count, target);
    } else {
      LookupV1Right(recs[1..], rest, glyph + 1, count, target);
      LookupV1Step(recs, rest, glyph, count, target);
    }
  }

  // ----- PSF2: UTF-8 -----

  function ScanV2(b: seq<Byte>, glyph: nat, target: int): Option<nat>
    decreases |b|
  {
    if b == [] then None
    else if b[0] == 0xFF then ScanV2(b[1..], glyph + 1, target)
    else match Decode(b)
      case None => None
      case Some((cp, width)) => if cp == target then Some(glyph) else ScanV2(b[width..], glyph, target)
  }

  method UnicodeLookupV2(bytes: seq<Byte>, target: int) returns (r: Option<nat>)
    ensures r == ScanV2(bytes, 0, target)
  {
    var pos, glyph := 0, 0;
    while pos < |bytes|
      invariant 0 <= pos <= |bytes|
      invariant ScanV2(bytes, 0, target) == ScanV2(bytes[pos..], glyph, target)
      decreases |bytes| - pos
    {
      var b := bytes[pos];
      assert bytes[pos..][0] == b && bytes[pos..][1..] == bytes[pos + 1..];
      if b == 0xFF {
        glyph := glyph + 1;
        pos := pos + 1;
        continue;
      }
      var decoded := DecodeUtf8(bytes[pos..]);
      if decoded.None? {
        return None;
      }
      var (cp, width) := decoded.value;
      assert bytes[pos..][width..] == bytes[pos + width..];
      pos := pos + width;
      if cp == target {
        return Some(glyph);
      }
    }
    return None;
  }

  /** A PSF2 record: characters drawn by this glyph, then combining sequences each opened by 0xFE. */
  type RecordV2 = Record<Scalar>

  function Text(cs: seq<Scalar>): seq<Byte> {
    if cs == [] then [] else Encode(cs[0]) + Text(cs[1..])
  }

  function SequencesV2(seqs: seq<seq<Scalar>>): seq<Byte> {
    if seqs == [] then [] else [0xFE] + Text(seqs[0]) + SequencesV2(seqs[1..])
  }

  function EncodeV2(r: RecordV2): seq<Byte> {
    Text(r.direct) + SequencesV2(r.sequences) + [0xFF]
  }

  function TableV2(recs: seq<RecordV2>): seq<Byte> {
    if recs == [] then [] else EncodeV2(recs[0]) + TableV2(recs[1..])
  }

  /** What the scanner takes a record's sequences for: their characters, and a `~` for every 0xFE marker. */
  function Strays(seqs: seq<seq<Scalar>>): seq<int> {
    if seqs == [] then [] else [0x7E] + seqs[0] + Strays(seqs[1..])
  }

  function SeenV2(recs: seq<RecordV2>): (sets: seq<seq<int>>)
    ensures |sets| == |recs|
    ensures forall i :: 0 <= i < |recs| ==> sets[i] == recs[i].direct + Strays(recs[i].sequences)
  {
    if recs == [] then [] else [recs[0].direct + Strays(recs[0].sequences)] + SeenV2(recs[1..])
  }

  lemma {:induction false} ScanText(cs: seq<Scalar>, rest: seq<Byte>, glyph: nat, target: int)
    ensures ScanV2(Text(cs) + rest, glyph, target)
         == if target in cs then Some(glyph) else ScanV2(rest, glyph, target)
  {
    if cs == [] {
      assert Text(cs) + rest == rest;
    } else {
      var tail := Text(cs[1..]) + rest;
      var b := Encode(cs[0]) + tail;
      assert Text(cs) + rest == b;
      DecodeEncode(cs[0], tail);
      assert b[|Encode(cs[0])|..] == tail && b[0] == Encode(cs[0])[0];
      ScanText(cs[1..], rest, glyph, target);
      assert target in cs <==> target == cs[0] || target in cs[1..];
    }
  }

  /** The decoder takes a sequence marker for `~`. */
  lemma ScanMarker(rest: seq<Byte>, glyph: nat, target: int)
    ensures ScanV2([0xFE] + rest, glyph, target)
         == if target == 0x7E then Some(glyph) else ScanV2(rest, glyph, target)
  {
    var b := [0xFE] + rest;
    assert b[1..1] == [] && b[1..] == rest;
    assert Decode(b) == Some((0x7E, 1));
  }

  lemma ScanEnd(rest: seq<Byte>, glyph: nat, target: int)
    ensures ScanV2([0xFF] + rest, glyph, target) == ScanV2(rest, glyph + 1, target)
  {
    assert ([0xFF] + rest)[1..] == rest;
  }

  lemma StraysOpen(seqs: seq<seq<Scalar>>, rest: seq<Byte>)
    requires seqs != []
    ensures SequencesV2(seqs) + rest == [0xFE] + (Text(seqs[0]) + (SequencesV2(seqs[1..]) + rest))
    ensures Strays(seqs) == [0x7E] + (seqs[0] + Strays(seqs[1..]))
  {
    Assoc([0xFE] + Text(seqs[0]), SequencesV2(seqs[1..]), rest);
    Assoc([0xFE], Text(seqs[0]), SequencesV2(seqs[1..]) + rest);
  }

  lemma {:induction false} ScanStrays(seqs: seq<seq<Scalar>>, rest: seq<Byte>, glyph: nat, target: int)
    ensures ScanV2(SequencesV2(seqs) + rest, glyph, target)
         == if target in Strays(seqs) then Some(glyph) else ScanV2(rest, glyph, target)
  {
    if seqs == [] {
      assert SequencesV2(seqs) + rest == rest;
    } else {
      StraysOpen(seqs, rest);
      var tail := SequencesV2(seqs[1..]) + rest;
      ScanMarker(Text(seqs[0]) + tail, glyph, target);
      ScanText(seqs[0], tail, glyph, target);
      ScanStrays(seqs[1..], rest, glyph, target);
    }
  }

  lemma RecordOpensV2(recs: seq<RecordV2>)
    requires recs != []
    ensures TableV2(recs)
         == Text(recs[0].direct) + (SequencesV2(recs[0].sequences) + ([0xFF] + TableV2(recs[1..])))
  {
    var w, q, after := Text(recs[0].direct), SequencesV2(recs[0].sequences), TableV2(recs[1..]);
    Assoc(w + q, [0xFF], after);
    Assoc(w, q, [0xFF] + after);
  }

  /** On any table of 0xFF-terminated records the PSF2 scan finds the least glyph that mentions the character at all. */
  lemma {:induction false} LookupV2Sees(recs: seq<RecordV2>, glyph: nat, target: int)
    ensures ScanV2(TableV2(recs), glyph, target) == Shift(FindFirst(SeenV2(recs), target), glyph)
  {
    if recs != [] {
      var r := recs[0];
      var after := TableV2(recs[1..]);
      RecordOpensV2(recs);
      ScanText(r.direct, SequencesV2(r.sequences) + ([0xFF] + after), glyph, target);
      ScanStrays(r.sequences, [0xFF] + after, glyph, target);
      ScanEnd(after, glyph, target);
      LookupV2Sees(recs[1..], glyph + 1, target);
      FirstFrom(SeenV2(recs), r.direct + Strays(r.sequences), SeenV2(recs[1..]), target, glyph);
    }
  }

  /** The records before the one that lists `target` directly; all of them when none does. */
  function Before(recs: seq<RecordV2>, target: int): nat {
    match FindFirst(Direct(recs), target) case None => |recs| case Some(k) => k
  }

  /**
   * The PSF2 scan gives the least glyph that lists the character directly, or none, exactly when no earlier
   * record carries it in a sequence; for `~`, when no earlier record has a sequence at all.
   */
  lemma LookupV2Exactly(recs: seq<RecordV2>, target: int)
    ensures ScanV2(TableV2(recs), 0, target) == FindFirst(Direct(recs), target)
       <==> forall i :: 0 <= i < Before(recs, target) ==> target !in Strays(recs[i].sequences)
  {
    LookupV2Sees(recs, 0, target);
    var stray := seq(|recs|, i requires 0 <= i < |recs| => target in Strays(recs[i].sequences));
    assert Shift(FindFirst(SeenV2(recs), target), 0) == FindFirst(SeenV2(recs), target);
    FirstsAgree(SeenV2(recs), Direct(recs), stray, target);
  }

  /** Two searches agree when nothing before the first hit of the second makes the first stop early. */
  lemma FirstsAgree(seen: seq<seq<int>>, meant: seq<seq<int>>, stray: seq<bool>, target: int)
    requires |seen| == |meant| == |stray|
    requires forall i :: 0 <= i < |seen| ==> (target in seen[i] <==> target in meant[i] || stray[i])
    ensures var n := match FindFirst(meant, target) case None => |meant| case Some(k) => k;
            FindFirst(seen, target) == FindFirst(meant, target) <==> forall i :: 0 <= i < n ==> !stray[i]
  {
    var n := match FindFirst(meant, target) case None => |meant| case Some(k) => k;
    if FindFirst(seen, target) == FindFirst(meant, target) {
      forall i | 0 <= i < n ensures !stray[i] { assert target !in seen[i]; }
    }
    if forall i :: 0 <= i < n ==> !stray[i] {
      forall i | 0 <= i < n ensures target !in seen[i] { assert target !in meant[i]; }
    }
  }

  /** Without sequences the PSF2 scan is right for every character. */
  lemma LookupV2Right(recs: seq<RecordV2>, target: int)
    requires forall i :: 0 <= i < |recs| ==> recs[i].sequences == []
    ensures ScanV2(TableV2(recs), 0, target) == FindFirst(Direct(recs), target)
  {
    LookupV2Exactly(recs, target);
  }

  /** One sequence in an earlier glyph's record is enough to take the wrong glyph for `~`. */
  lemma TildeGoesAstray()
    ensures var recs := [Record([0x41], [[0x65, 0x301]]), Record([0x7E], [])];
            FindFirst(Direct(recs), 0x7E) == Some(1) && ScanV2(TableV2(recs), 0, 0x7E) == Some(0)
  {
    var recs := [Record([0x41], [[0x65, 0x301]]), Record([0x7E], [])];
    LookupV2Sees(recs, 0, 0x7E);
    assert Direct(recs)[0] == [0x41] && Direct(recs)[1] == [0x7E];
    assert SeenV2(recs)[0] == [0x41] + Strays([[0x65, 0x301]]);
    assert Strays([[0x65, 0x301]])[0] == 0x7E;
    assert 0x7E in SeenV2(recs)[0];
  }
}
