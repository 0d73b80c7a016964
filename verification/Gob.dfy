/** The gob scan of platform/cookie.go: user ids hidden in a gob-encoded session payload. */
module Gob {

  type Byte = b: int | 0 <= b < 256

  const MAX_ID := 10_000_000
  const WORD := 0x1_0000_0000_0000_0000

  // ---- Decoding one signed integer ----

  /** The bytes read into a 64-bit word, most significant first; high bits fall off. */
  function BigEndian(bytes: seq<Byte>): (n: nat)
    ensures n < WORD
  {
    if bytes == [] then 0 else (BigEndian(bytes[..|bytes| - 1]) * 256 + bytes[|bytes| - 1]) % WORD
  }

  /** Gob keeps the sign in the lowest bit. Values outside 1..10^7 are reported as 0. */
  function Signed(unsigned: nat): (id: int)
    ensures 0 <= id <= MAX_ID
  {
    var signed := if unsigned % 2 == 0 then unsigned / 2 else -(unsigned / 2) - 1;
    if signed <= 0 || signed > MAX_ID then 0 else signed
  }

  function Decode(encoded: seq<Byte>): (id: int)
    ensures 0 <= id <= MAX_ID
  {
    if encoded == [] then 0
    else if encoded[0] < 0x80 then Signed(encoded[0])
    else if |encoded| != 0x100 - encoded[0] + 1 then 0
    else Signed(BigEndian(encoded[1..]))
  }

  method DecodeGobSignedInt(encoded: seq<Byte>) returns (id: int)
    ensures id == Decode(encoded)
  {
    if |encoded| == 0 {
      return 0;
    }
    var unsigned: nat := 0;
    if encoded[0] < 0x80 {
      unsigned := encoded[0];
    } else {
      var width := 0x100 - encoded[0];
      if width <= 0 || |encoded| != width + 1 {
        return 0;
      }
      var i := 1;
      while i < |encoded|
        invariant 1 <= i <= |encoded|
        invariant unsigned == BigEndian(encoded[1..i])
      {
        assert encoded[1..i + 1][..i - 1] == encoded[1..i];
        unsigned := (unsigned * 256 + encoded[i]) % WORD;
        i := i + 1;
      }
      assert encoded[1..i] == encoded[1..];
    }
    var signed := if unsigned % 2 == 0 then unsigned / 2 else -(unsigned / 2) - 1;
    if signed <= 0 || signed > MAX_ID {
      return 0;
    }
    return signed;
  }

  // ---- Gob's own encoding, and that decoding inverts it ----

  /** Minimal big-endian bytes. */
  function Digits(n: nat): (bytes: seq<Byte>)
  {
    if n == 0 then [] else Digits(n / 256) + [n % 256]
  }

  function EncodeUnsigned(n: nat): seq<Byte>
    requires n < WORD
  {
    if n < 0x80 then [n]
    else
      DigitsLength(n);
      [0x100 - |Digits(n)|] + Digits(n)
  }

  /** A signed integer: magnitude shifted left, sign in the lowest bit. */
  function EncodeSigned(i: int): seq<Byte>
    requires -0x8000_0000_0000_0000 <= i < 0x8000_0000_0000_0000
  {
    EncodeUnsigned(if i < 0 then 2 * (-i - 1) + 1 else 2 * i)
  }

  lemma {:induction false} DigitsBelow(n: nat, k: nat)
    requires n < Power256(k)
    ensures |Digits(n)| <= k
  {
    if n != 0 {
      DigitsBelow(n / 256, k - 1);
    }
  }

  function Power256(k: nat): (p: nat)
    ensures p >= 1
  {
    if k == 0 then 1 else 256 * Power256(k - 1)
  }

  lemma DigitsLength(n: nat)
    requires n < WORD
    ensures |Digits(n)| <= 8
    ensures n != 0 ==> |Digits(n)| >= 1
  {
    assert Power256(2) == 0x1_0000;
    assert Power256(4) == 0x1_0000_0000;
    assert Power256(6) == 0x1_0000_0000_0000;
    assert Power256(8) == WORD;
    DigitsBelow(n, 8);
  }

  lemma {:induction false} BigEndianDigits(n: nat)
    requires n < WORD
    ensures BigEndian(Digits(n)) == n
  {
    if n != 0 {
      BigEndianDigits(n / 256);
      var bytes := Digits(n);
      assert bytes[..|bytes| - 1] == Digits(n / 256);
      assert BigEndian(bytes) == (n / 256 * 256 + n % 256) % WORD;
      assert n / 256 * 256 + n % 256 == n;
    }
  }

  lemma DecodeUnsigned(n: nat)
    requires n < WORD
    ensures Decode(EncodeUnsigned(n)) == Signed(n)
  {
    hide Digits, BigEndian, Signed;
    if n >= 0x80 {
      DigitsLength(n);
      BigEndianDigits(n);
      assert EncodeUnsigned(n)[1..] == Digits(n);
    }
  }

  lemma SignInLowestBit(i: int)
    ensures Signed(if i < 0 then 2 * (-i - 1) + 1 else 2 * i) == if 1 <= i <= MAX_ID then i else 0
  {
  }

  /** decodeGobSignedInt inverts the encoding on the ids it accepts, and maps every other encoded
      integer to 0. */
  lemma DecodeEncode(i: int)
    requires -0x8000_0000_0000_0000 <= i < 0x8000_0000_0000_0000
    ensures Decode(EncodeSigned(i)) == if 1 <= i <= MAX_ID then i else 0
  {
    hide Decode, EncodeUnsigned, Signed;
    DecodeUnsigned(if i < 0 then 2 * (-i - 1) + 1 else 2 * i);
    SignInLowestBit(i);
  }

  // ---- Scanning for a field marker ----

  const ID_MARKER: seq<Byte> := ['i' as int, 'd' as int, 3, 'i' as int, 'n' as int, 't' as int, 4]

  predicate MarkerAt(payload: seq<Byte>, pos: nat) {
    pos + |ID_MARKER| <= |payload| && payload[pos..pos + |ID_MARKER|] == ID_MARKER
  }

  /** bytes.Index: the first marker at or after `from`, or |payload|. */
  function NextMarker(payload: seq<Byte>, from: nat): (pos: nat)
    requires from <= |payload|
    ensures from <= pos <= |payload|
    ensures pos < |payload| ==> MarkerAt(payload, pos)
    ensures forall p :: from <= p < pos ==> !MarkerAt(payload, p)
    decreases |payload| - from
  {
    if from == |payload| || MarkerAt(payload, from) then from else NextMarker(payload, from + 1)
  }

  /** The id encoded behind the marker at `pos`, or 0. */
  function IdAt(payload: seq<Byte>, pos: nat): (id: int)
    requires MarkerAt(payload, pos)
    ensures 0 <= id <= MAX_ID
  {
    var at := pos + |ID_MARKER|;
    if at + 1 >= |payload| || payload[at + 1] != 0 || payload[at] < 2 then 0
    else
      var start, end := at + 2, at + 2 + payload[at] - 1;
      if end > |payload| then 0 else Decode(payload[start..end])
  }

  lemma MarkerBytes(payload: seq<Byte>, pos: nat, k: nat)
    requires MarkerAt(payload, pos) && k < |ID_MARKER|
    ensures payload[pos + k] == ID_MARKER[k]
  {
    assert payload[pos..pos + |ID_MARKER|][k] == payload[pos + k];
  }

  /** No marker starts inside another one, so the scan may jump over each marker it found. */
  lemma MarkersDisjoint(payload: seq<Byte>, p: nat, q: nat)
    requires MarkerAt(payload, p) && MarkerAt(payload, q)
    requires p < q
    ensures p + |ID_MARKER| <= q
  {
    MarkerBytes(payload, q, 0);
    MarkerBytes(payload, q, 1);
    MarkerBytes(payload, p, 4);
    if q < p + |ID_MARKER| {
      MarkerBytes(payload, p, q - p);
    }
  }

  /** The ids found by scanning up to `end`: those whose first marker starts before it, in the order
      of their first markers. */
  ghost predicate ScannedTo(payload: seq<Byte>, ids: seq<int>, end: int) {
    && (forall id :: id in ids <==> id != 0 && FirstMarkerOf(payload, id) < end)
    && (forall i, j :: 0 <= i < j < |ids| ==> FirstMarkerOf(payload, ids[i]) < FirstMarkerOf(payload, ids[j]))
  }

  /** extractGobFieldInts for the field "id". */
  method ExtractGobIds(payload: seq<Byte>) returns (ids: seq<int>)
    ensures ScannedTo(payload, ids, |payload|)
  {
    hide MarkerAt, NextMarker, ScannedTo;
    ids := [];
    var seen: set<int> := {};
    var start := 0;
    NothingScanned(payload);
    while start < |payload|
      invariant start <= |payload|
      invariant forall id :: id in seen <==> id in ids
      invariant ScannedTo(payload, ids, start)
    {
      var pos := NextMarker(payload, start);
      ScanStep(payload, ids, start);
      if pos == |payload| {
        break;
      }
      var v := 0;
      if pos + |ID_MARKER| + 1 < |payload| {
        var encodedLen := payload[pos + |ID_MARKER|];
        var delim := payload[pos + |ID_MARKER| + 1];
        if delim == 0 && encodedLen > 0 {
          var byteLen := encodedLen - 1;
          var valStart := pos + |ID_MARKER| + 2;
          var valEnd := valStart + byteLen;
          if byteLen > 0 && valEnd <= |payload| {
            v := DecodeGobSignedInt(payload[valStart..valEnd]);
          }
        }
      }
      assert v == IdAt(payload, pos);
      MarkerFits(payload, pos);
      if v > 0 && v <= MAX_ID && v !in seen {
        seen := seen + {v};
        ids := ids + [v];
      }
      start := pos + |ID_MARKER|;
    }
  }

  /** What the scan promises: no duplicates, all within 1..10^7, and exactly the valid ids encoded
      behind some marker of the payload. */
  lemma ScanIsExact(payload: seq<Byte>, ids: seq<int>)
    requires ScannedTo(payload, ids, |payload|)
    ensures forall i, j :: 0 <= i < j < |ids| ==> ids[i] != ids[j]
    ensures forall id :: id in ids ==> 1 <= id <= MAX_ID
    ensures forall id :: id in ids <==> id != 0 && EncodedSomewhere(payload, id)
  {
    hide MarkerAt, IdAt, FirstMarkerFrom, EncodedAt;
    forall id | id != 0 ensures FirstMarkerOf(payload, id) < |payload| <==> EncodedSomewhere(payload, id) {
      var p := FirstMarkerOf(payload, id);
      if EncodedSomewhere(payload, id) {
        var q: nat :| q < |payload| && EncodedAt(payload, q, id);
        EncodedAtIff(payload, q, id);
      } else if p < |payload| {
        EncodedAtIff(payload, p, id);
      }
    }
  }

  /** At `pos` the payload reads: the name "id" behind the length of the type name, "int" behind its own, the
      type's id 4; then the length of what follows, a zero, and the encoded integer. */
  predicate EncodedAt(payload: seq<Byte>, pos: nat, id: int) {
    && pos + 9 <= |payload|
    && payload[pos..pos + 7] == ['i' as int, 'd' as int, 3, 'i' as int, 'n' as int, 't' as int, 4]
    && var length := (payload[pos + 7] as int) - 1;
       && payload[pos + 8] == 0 && 1 <= length <= |payload| - (pos + 9)
       && Decode(payload[pos + 9..pos + 9 + length]) == id
  }

  ghost predicate EncodedSomewhere(payload: seq<Byte>, id: int) {
    exists p: nat :: p < |payload| && EncodedAt(payload, p, id)
  }

  lemma EncodedAtIff(payload: seq<Byte>, pos: nat, id: int)
    requires id != 0
    ensures EncodedAt(payload, pos, id) <==> MarkerAt(payload, pos) && IdAt(payload, pos) == id
  {
    hide Decode;
  }

  /** The field as gob writes it. */
  function IdField(id: int): seq<Byte>
    requires 1 <= id <= 10_000_000
  {
    ShortEncoding(id);
    ID_MARKER + [|EncodeSigned(id)| + 1, 0] + EncodeSigned(id)
  }

  /** An id written the way gob writes it, wherever it stands in a payload, is found by the scan. */
  lemma EncodedIsScanned(before: seq<Byte>, id: int, after: seq<Byte>, ids: seq<int>)
    requires 1 <= id <= 10_000_000
    requires ScannedTo(before + IdField(id) + after, ids, |before + IdField(id) + after|)
    ensures id in ids
  {
    hide MarkerAt, IdAt, FirstMarkerFrom, EncodeSigned, Decode, ScannedTo;
    var encoded := EncodeSigned(id);
    ShortEncoding(id);
    var payload := before + IdField(id) + after;
    var pos := |before|;
    DecodeEncode(id);
    assert payload[pos..pos + 7] == ID_MARKER;
    assert payload[pos + 9..pos + 9 + |encoded|] == encoded;
    assert payload[pos + 7] == |encoded| + 1 && payload[pos + 8] == 0;
    assert EncodedAt(payload, pos, id);
    ScanIsExact(payload, ids);
  }

  lemma ShortEncoding(i: int)
    requires -0x8000_0000_0000_0000 <= i < 0x8000_0000_0000_0000
    ensures 1 <= |EncodeSigned(i)| <= 9
  {
    var n := if i < 0 then 2 * (-i - 1) + 1 else 2 * i;
    if n >= 0x80 {
      DigitsLength(n);
    }
  }

  /** The first marker behind which `id` is encoded, or |payload|. */
  function FirstMarkerOf(payload: seq<Byte>, id: int): nat {
    FirstMarkerFrom(payload, id, 0)
  }

  function FirstMarkerFrom(payload: seq<Byte>, id: int, from: nat): (p: nat)
    requires from <= |payload|
    ensures from <= p <= |payload|
    ensures p < |payload| ==> MarkerAt(payload, p) && IdAt(payload, p) == id
    ensures forall q :: from <= q < p && MarkerAt(payload, q) ==> IdAt(payload, q) != id
    decreases |payload| - from
  {
    if from == |payload| || (MarkerAt(payload, from) && IdAt(payload, from) == id) then from
    else FirstMarkerFrom(payload, id, from + 1)
  }

  lemma NothingScanned(payload: seq<Byte>)
    ensures ScannedTo(payload, [], 0)
  {
  }

  lemma MarkerFits(payload: seq<Byte>, pos: nat)
    requires MarkerAt(payload, pos)
    ensures pos + |ID_MARKER| <= |payload|
  {
  }

  /** One scan step meets exactly one new marker. */
  lemma FirstMarkerStep(payload: seq<Byte>, start: nat, pos: nat, id: int)
    requires start <= pos < |payload| && pos == NextMarker(payload, start)
    ensures FirstMarkerOf(payload, id) < pos + |ID_MARKER| <==>
      FirstMarkerOf(payload, id) < start || id == IdAt(payload, pos)
    ensures FirstMarkerOf(payload, id) < pos + |ID_MARKER| ==> FirstMarkerOf(payload, id) <= pos
  {
    hide MarkerAt, IdAt, NextMarker, FirstMarkerFrom;
    var p := FirstMarkerOf(payload, id);
    if pos < p < |payload| {
      MarkersDisjoint(payload, pos, p);
    }
    MarkerFits(payload, pos);
  }

  lemma ScanStep(payload: seq<Byte>, ids: seq<int>, start: nat)
    requires start <= |payload| && ScannedTo(payload, ids, start)
    ensures var pos := NextMarker(payload, start);
      if pos == |payload| then ScannedTo(payload, ids, |payload|)
      else
        var v := IdAt(payload, pos);
        ScannedTo(payload, if v == 0 || v in ids then ids else ids + [v], pos + |ID_MARKER|)
  {
    hide MarkerAt, IdAt, NextMarker, FirstMarkerFrom;
    var pos := NextMarker(payload, start);
    if pos < |payload| {
      forall id { FirstMarkerStep(payload, start, pos, id); }
      var v := IdAt(payload, pos);
      if v != 0 && v !in ids {
        var ids' := ids + [v];
        forall i | 0 <= i < |ids| ensures FirstMarkerOf(payload, ids[i]) < FirstMarkerOf(payload, v) {
          assert ids[i] in ids;
        }
      }
    }
  }
}
