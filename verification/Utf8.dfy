/** UTF-8 strings against strings of 16-bit units, as the table-driven converters do it. */
module Utf8 {

  type Byte = b: nat | b < 256

  type Unit = u: nat | u < 0x1_0000

  // ----- One unit -----

  /** A lead byte matches when its top bits are val; shift bits of the code follow it; the code
      so far is cut to mask and must reach least. */
  datatype Form = Form(divisor: nat, val: nat, shift: nat, mask: nat, least: nat)

  function Table(k: nat): (f: Form)
    requires k < 6
    ensures f.divisor > 0 && f.mask > 0
  {
    if k == 0 then Form(0x80, 0, 0, 0x80, 0)
    else if k == 1 then Form(0x20, 6, 6, 0x800, 0x80)
    else if k == 2 then Form(0x10, 14, 12, 0x1_0000, 0x800)
    else if k == 3 then Form(8, 30, 18, 0x20_0000, 0x1_0000)
    else if k == 4 then Form(4, 62, 24, 0x400_0000, 0x20_0000)
    else Form(2, 126, 30, 0x8000_0000, 0x400_0000)
  }

  /** The code without its c lowest bits. */
  function Shr(l: nat, c: nat): nat {
    if c == 0 then l else Shr(l / 2, c - 1)
  }

  function Size(u: Unit): (n: nat)
    ensures 1 <= n <= 3
  {
    if u < 0x80 then 1 else if u < 0x800 then 2 else 3
  }

  /** The forms of section 2 of RFC 2279 that a 16-bit unit can take. */
  function EncodeUnit(u: Unit): (b: seq<Byte>)
    ensures |b| == Size(u)
  {
    if u < 0x80 then [u]
    else if u < 0x800 then [0xC0 + u / 64, 0x80 + u % 64]
    else [0xE0 + u / 4096, 0x80 + u / 64 % 64, 0x80 + u % 64]
  }

  /** Byte i of a string that ends in NUL. */
  function ByteAt(b: seq<Byte>, i: nat): Byte {
    if i < |b| then b[i] else 0
  }

  datatype Decoded = Bad | Got(unit: Unit, size: nat)

  /** One sequence at pos, with n as the limit: k more bytes have been taken into l. */
  function Scan(b: seq<Byte>, pos: nat, n: int, k: nat, l: nat): (r: Decoded)
    requires k <= 6
    ensures r.Got? ==> 1 <= r.size <= 6
    decreases |b|, 6 - k
  {
    if k == 6 then Bad
    else
      var f := Table(k);
      if ByteAt(b, pos) / f.divisor == f.val then
        (if l % f.mask < f.least then Bad else Got(l % f.mask % 0x1_0000, k + 1))
      else if n <= k + 1 then Bad
      else
        var c := ByteAt(b, pos + k + 1);
        if c / 64 != 2 then Bad else Scan(b, pos, n, k + 1, l * 64 + c % 64)
  }

  /** A unit's bytes lie at pos. */
  ghost predicate IsCode(b: seq<Byte>, pos: nat, u: Unit) {
    pos + Size(u) <= |b| && b[pos..pos + Size(u)] == EncodeUnit(u)
  }

  /** A unit's bytes decode to it, given at least their number as the limit, and to nothing
      with less. */
  lemma ScanUnit(b: seq<Byte>, pos: nat, n: int, u: Unit)
    requires u >= 0x80 && IsCode(b, pos, u)
    ensures Scan(b, pos, n, 0, b[pos]) == if n >= Size(u) then Got(u, Size(u)) else Bad
  {
    var e := EncodeUnit(u);
    assert b[pos] == e[0] && b[pos + 1] == e[1] && (|e| == 3 ==> b[pos + 2] == e[2]);
    if u < 0x800 {
      ScanTwo(b, pos, n, u / 64, u % 64, u);
    } else {
      Parts(u);
      ScanThree(b, pos, n, u / 4096, u / 64 % 64, u % 64, u);
    }
  }

  /** One more continuation byte taken in. */
  lemma ScanOn(b: seq<Byte>, pos: nat, n: int, k: nat, l: nat, c: nat)
    requires k < 6 && ByteAt(b, pos) / Table(k).divisor != Table(k).val && n > k + 1
    requires ByteAt(b, pos + k + 1) == 0x80 + c && c < 64
    ensures Scan(b, pos, n, k, l) == Scan(b, pos, n, k + 1, l * 64 + c)
  {
  }

  lemma ScanStops(b: seq<Byte>, pos: nat, n: int, k: nat, l: nat)
    requires k < 6 && ByteAt(b, pos) / Table(k).divisor != Table(k).val && n <= k + 1
    ensures Scan(b, pos, n, k, l) == Bad
  {
  }

  lemma ScanEnds(b: seq<Byte>, pos: nat, n: int, k: nat, l: nat, u: nat)
    requires k < 6 && ByteAt(b, pos) / Table(k).divisor == Table(k).val
    requires l == Table(k).val * Table(k).mask + u && u < Table(k).mask
    ensures Scan(b, pos, n, k, l) == if u < Table(k).least then Bad else Got(u % 0x1_0000, k + 1)
  {
    CutTo(k, u);
  }

  lemma CutTo(k: nat, u: nat)
    requires k < 6 && u < Table(k).mask
    ensures (Table(k).val * Table(k).mask + u) % Table(k).mask == u
  {
    if k == 0 {
    } else if k == 1 {
      assert (6 * 0x800 + u) % 0x800 == u;
    } else if k == 2 {
      assert (14 * 0x1_0000 + u) % 0x1_0000 == u;
    } else if k == 3 {
      assert (30 * 0x20_0000 + u) % 0x20_0000 == u;
    } else if k == 4 {
      assert (62 * 0x400_0000 + u) % 0x400_0000 == u;
    } else {
      assert (126 * 0x8000_0000 + u) % 0x8000_0000 == u;
    }
  }

  lemma ScanTwo(b: seq<Byte>, pos: nat, n: int, x: nat, y: nat, u: Unit)
    requires 2 <= x < 32 && y < 64 && u == x * 64 + y
    requires pos + 2 <= |b| && b[pos] == 0xC0 + x && b[pos + 1] == 0x80 + y
    ensures Scan(b, pos, n, 0, b[pos]) == if n >= 2 then Got(u, 2) else Bad
  {
    ValueTwo(x, y);
    ScanForm(b, pos, n, [y], x, u);
  }

  lemma ScanThree(b: seq<Byte>, pos: nat, n: int, x: nat, y: nat, z: nat, u: Unit)
    requires x < 16 && y < 64 && z < 64 && u == x * 4096 + y * 64 + z && u >= 0x800
    requires pos + 3 <= |b| && b[pos] == 0xE0 + x && b[pos + 1] == 0x80 + y && b[pos + 2] == 0x80 + z
    ensures Scan(b, pos, n, 0, b[pos]) == if n >= 3 then Got(u, 3) else Bad
  {
    ValueThree(x, y, z);
    ScanForm(b, pos, n, [y, z], x, u);
  }

  lemma ValueTwo(x: nat, y: nat)
    ensures Value(x, [y]) == x * 64 + y
  {
    assert [y][..0] == [];
  }

  lemma ValueThree(x: nat, y: nat, z: nat)
    ensures Value(x, [y, z]) == x * 4096 + y * 64 + z
  {
    assert [y, z][..1] == [y];
    ValueTwo(x, y);
  }

  lemma Parts(u: Unit)
    ensures u / 4096 * 4096 + u / 64 % 64 * 64 + u % 64 == u
  {
    assert u / 64 / 64 == u / 4096;
  }

  // ----- Sequences of every length -----

  /** Six bits of a code in each byte after the lead. */
  ghost predicate Follows(b: seq<Byte>, pos: nat, c: seq<nat>) {
    && pos + |c| < |b| && (forall i :: 0 <= i < |c| ==> c[i] < 64)
    && forall i :: 0 <= i < |c| ==> b[pos + 1 + i] == 0x80 + c[i]
  }

  function Value(lead: nat, c: seq<nat>): nat {
    if c == [] then lead else Value(lead, c[..|c| - 1]) * 64 + c[|c| - 1]
  }

  /** Taking in the bytes one by one, as long as the limit lasts and no shorter form matches. */
  lemma {:induction false} ScanAlong(b: seq<Byte>, pos: nat, n: int, c: seq<nat>, j: nat)
    requires Follows(b, pos, c) && |c| < 6 && j <= |c|
    requires forall k :: 0 <= k < |c| ==> b[pos] / Table(k).divisor != Table(k).val
    ensures n > j ==> Scan(b, pos, n, 0, b[pos]) == Scan(b, pos, n, j, Value(b[pos], c[..j]))
    ensures n <= j && j > 0 ==> Scan(b, pos, n, 0, b[pos]) == Bad
    decreases j
  {
    if j == 0 {
      assert c[..0] == [];
    } else {
      ScanAlong(b, pos, n, c, j - 1);
      var l := Value(b[pos], c[..j - 1]);
      assert c[..j][..j - 1] == c[..j - 1];
      if n > j {
        ScanOn(b, pos, n, j - 1, l, c[j - 1]);
      } else if n == j {
        ScanStops(b, pos, n, j - 1, l);
      } else if j == 1 {
        ScanStops(b, pos, n, 0, l);
      }
    }
  }

  /** A lead byte and k bytes after it make one code, which is got, cut to sixteen bits, exactly when
      the limit covers them all and no shorter sequence could have held it. */
  lemma ScanForm(b: seq<Byte>, pos: nat, n: int, c: seq<nat>, x: nat, code: nat)
    requires 1 <= |c| <= 5 && Follows(b, pos, c)
    requires var (lead, room) := LeadOf(|c|); x < room && b[pos] == lead + x && code == Value(x, c)
    ensures Scan(b, pos, n, 0, b[pos]) ==
            if n > |c| && code >= LeastOf(|c|) then Got(code % 0x1_0000, |c| + 1) else Bad
  {
    var k := |c|;
    LeadOnly(k, x, b[pos]);
    ScanAlong(b, pos, n, c, k);
    assert c[..k] == c;
    if n > k {
      ValueOf(k, x, c, b[pos]);
      ScanEnds(b, pos, n, k, Value(b[pos], c), code);
    }
  }

  /** The lead byte of a form and how many values it has to carry. */
  function LeadOf(k: nat): (nat, nat)
    requires 1 <= k <= 5
  {
    if k == 1 then (0xC0, 32) else if k == 2 then (0xE0, 16) else if k == 3 then (0xF0, 8)
    else if k == 4 then (0xF8, 4) else (0xFC, 2)
  }

  /** The least code of a form: what one byte fewer cannot hold. */
  function LeastOf(k: nat): nat
    requires 1 <= k <= 5
  {
    if k == 1 then 0x80 else if k == 2 then 0x800 else if k == 3 then 0x1_0000
    else if k == 4 then 0x20_0000 else 0x400_0000
  }

  lemma LeadOnly(k: nat, x: nat, b: nat)
    requires 1 <= k <= 5 && x < LeadOf(k).1 && b == LeadOf(k).0 + x
    ensures b / Table(k).divisor == Table(k).val && Table(k).least == LeastOf(k)
    ensures forall j :: 0 <= j < k ==> b / Table(j).divisor != Table(j).val
  {
    assert b / 0x80 == 1;
    assert k >= 2 ==> b / 0x20 == 7;
    assert k >= 3 ==> b / 0x10 == 15;
    assert k >= 4 ==> b / 8 == 31;
    assert k >= 5 ==> b / 4 == 63;
  }

  lemma {:induction false} ValueLead(lead: nat, x: nat, c: seq<nat>, p: nat)
    requires p == Power64(|c|)
    ensures Value(lead + x, c) == lead * p + Value(x, c)
    decreases |c|
  {
    if c == [] {
    } else {
      var init := c[..|c| - 1];
      ValueLead(lead, x, init, Power64(|init|));
    }
  }

  function Power64(k: nat): nat {
    if k == 0 then 1 else 64 * Power64(k - 1)
  }

  lemma {:induction false} ValueBelow(x: nat, c: seq<nat>)
    requires forall i :: 0 <= i < |c| ==> c[i] < 64
    ensures Value(x, c) < (x + 1) * Power64(|c|)
    decreases |c|
  {
    if c == [] {
    } else {
      var init := c[..|c| - 1];
      ValueBelow(x, init);
      assert (x + 1) * (64 * Power64(|init|)) == 64 * ((x + 1) * Power64(|init|));
    }
  }

  lemma SomePowers()
    ensures Power64(1) == 64 && Power64(2) == 0x1000 && Power64(3) == 0x4_0000
    ensures Power64(4) == 0x100_0000 && Power64(5) == 0x4000_0000
  {
    assert Power64(0) == 1;
    assert Power64(2) == 64 * Power64(1) && Power64(3) == 64 * Power64(2);
  }

  lemma ValueOf(k: nat, x: nat, c: seq<nat>, b: nat)
    requires 1 <= k <= 5 && |c| == k && (forall i :: 0 <= i < |c| ==> c[i] < 64)
    requires x < LeadOf(k).1 && b == LeadOf(k).0 + x
    ensures Value(b, c) == Table(k).val * Table(k).mask + Value(x, c) && Value(x, c) < Table(k).mask
  {
    SomePowers();
    ValueLead(LeadOf(k).0, x, c, Power64(k));
    ValueBelow(x, c);
    assert (x + 1) * Power64(k) <= LeadOf(k).1 * Power64(k);
  }

  /** A byte below 0x80 is a sequence by itself; one from 0x80 up to 0xBF begins none, nor do the
      last two. */
  lemma ScanByte(b: seq<Byte>, pos: nat, n: int)
    requires pos < |b|
    ensures b[pos] < 0x80 ==> Scan(b, pos, n, 0, b[pos]) == Got(b[pos], 1)
    ensures 0x80 <= b[pos] < 0xC0 || 0xFE <= b[pos] ==> Scan(b, pos, n, 0, b[pos]) == Bad
  {
    if 0x80 <= b[pos] < 0xC0 || 0xFE <= b[pos] {
      NoForm(b, pos, n, 0, b[pos]);
    }
  }

  lemma NoLead(b: nat, k: nat)
    requires k < 6 && b < 256 && (0x80 <= b < 0xC0 || 0xFE <= b)
    ensures b / Table(k).divisor != Table(k).val
  {
    if k == 0 {
      assert b / 0x80 == 1;
    } else if k == 1 {
      assert b / 0x20 != 6;
    } else if k == 2 {
      assert b / 0x10 != 14;
    } else if k == 3 {
      assert b / 8 != 30;
    } else if k == 4 {
      assert b / 4 != 62;
    } else {
      assert b / 2 != 126;
    }
  }

  lemma {:induction false} NoForm(b: seq<Byte>, pos: nat, n: int, k: nat, l: nat)
    requires pos < |b| && k <= 6 && (0x80 <= b[pos] < 0xC0 || 0xFE <= b[pos])
    ensures Scan(b, pos, n, k, l) == Bad
    decreases 6 - k
  {
    if k == 6 {
    } else {
      NoLead(b[pos], k);
      var c := ByteAt(b, pos + k + 1);
      if n > k + 1 && c / 64 == 2 {
        NoForm(b, pos, n, k + 1, l * 64 + c % 64);
      }
    }
  }

  /** The forms written out: a unit's bits below each lead byte, six to a byte. */
  lemma Forms(x: nat, y: nat, z: nat)
    requires x < 16 && y < 64 && z < 64
    ensures y < 32 && y >= 2 ==> EncodeUnit(y * 64 + z) == [0xC0 + y, 0x80 + z]
    ensures x * 4096 + y * 64 + z >= 0x800 ==> EncodeUnit(x * 4096 + y * 64 + z) == [0xE0 + x, 0x80 + y, 0x80 + z]
    ensures EncodeUnit(y) == [y] && EncodeUnit(64 + y) == [64 + y]
  {
    var u := x * 4096 + y * 64 + z;
    assert u / 64 == x * 64 + y && u % 64 == z && u / 4096 == x;
  }

  // ----- Strings -----

  function Encode(ws: seq<Unit>): seq<Byte> {
    if ws == [] then [] else EncodeUnit(ws[0]) + Encode(ws[1..])
  }

  /** The string from pos on, with limit units to fill. */
  function Decode(b: seq<Byte>, pos: nat, limit: int): (ws: seq<Unit>)
    decreases limit
  {
    if limit <= 0 || ByteAt(b, pos) == 0 then []
    else if ByteAt(b, pos) < 0x80 then [ByteAt(b, pos)] + Decode(b, pos + 1, limit - 1)
    else match Scan(b, pos, limit, 0, ByteAt(b, pos))
      case Bad => ['?' as nat] + Decode(b, pos + 1, limit - 1)
      case Got(u, n) => [u] + Decode(b, pos + n, limit - 1)
  }

  predicate NulFree(ws: seq<Unit>) {
    forall i :: 0 <= i < |ws| ==> ws[i] != 0
  }

  /** Each unit's sequence fits what is left of the limit when its turn comes. */
  ghost predicate Ample(ws: seq<Unit>, limit: int)
    decreases ws
  {
    ws == [] || (Size(ws[0]) <= limit && Ample(ws[1..], limit - 1))
  }

  lemma DecodeUnit(b: seq<Byte>, pos: nat, limit: int, u: Unit)
    requires u != 0 && limit > 0 && IsCode(b, pos, u)
    ensures Size(u) <= limit ==> Decode(b, pos, limit) == [u] + Decode(b, pos + Size(u), limit - 1)
    ensures Size(u) > limit ==> u >= 0x80 && Decode(b, pos, limit) == ['?' as nat] + Decode(b, pos + 1, limit - 1)
  {
    assert b[pos] == EncodeUnit(u)[0];
    if u >= 0x80 {
      ScanUnit(b, pos, limit, u);
    }
  }

  /** The bytes from pos on are the codes of ws, one after the other. */
  ghost predicate Spells(b: seq<Byte>, pos: nat, ws: seq<Unit>)
    decreases ws
  {
    if ws == [] then pos == |b| else IsCode(b, pos, ws[0]) && Spells(b, pos + Size(ws[0]), ws[1..])
  }

  lemma {:induction false} EncodeSpells(b: seq<Byte>, pos: nat, ws: seq<Unit>)
    requires pos <= |b| && b[pos..] == Encode(ws)
    ensures Spells(b, pos, ws)
    decreases |ws|
  {
    if ws == [] {
      assert |b[pos..]| == 0;
    } else {
      SplitAt(b, pos, EncodeUnit(ws[0]), Encode(ws[1..]));
      EncodeSpells(b, pos + Size(ws[0]), ws[1..]);
    }
  }

  lemma SplitAt(b: seq<Byte>, pos: nat, first: seq<Byte>, rest: seq<Byte>)
    requires pos <= |b| && b[pos..] == first + rest
    ensures pos + |first| <= |b| && b[pos..pos + |first|] == first && b[pos + |first|..] == rest
  {
    var (s, n) := (b[pos..], |first|);
    assert s[..n] == first && s[n..] == rest;
    assert b[pos..pos + n] == s[..n] && b[pos + n..] == s[n..];
  }

  lemma ConsEqual(d: seq<Unit>, u: Unit, rest: seq<Unit>, ws: seq<Unit>)
    requires d == [u] + rest && ws != []
    ensures d == ws <==> u == ws[0] && rest == ws[1..]
  {
    assert d[1..] == rest;
    assert ws == [ws[0]] + ws[1..];
  }

  lemma {:induction false} DecodeEncoded(b: seq<Byte>, pos: nat, ws: seq<Unit>, limit: int, d: seq<Unit>)
    requires NulFree(ws) && Spells(b, pos, ws) && d == Decode(b, pos, limit)
    ensures d == ws <==> Ample(ws, limit)
    decreases |ws|
  {
    if ws != [] && limit > 0 {
      var n := Size(ws[0]);
      DecodeUnit(b, pos, limit, ws[0]);
      assert Ample(ws, limit) <==> n <= limit && Ample(ws[1..], limit - 1);
      if n <= limit {
        var (rest, tail) := (Decode(b, pos + n, limit - 1), ws[1..]);
        DecodeEncoded(b, pos + n, tail, limit - 1, rest);
        ConsEqual(d, ws[0], rest, ws);
      } else {
        ConsEqual(d, '?' as nat, Decode(b, pos + 1, limit - 1), ws);
      }
    }
  }

  /** Decoding what was encoded gives the string back exactly when the limit is ample. */
  lemma RoundTrip(ws: seq<Unit>, limit: int)
    requires NulFree(ws)
    ensures Decode(Encode(ws), 0, limit) == ws <==> Ample(ws, limit)
  {
    assert Encode(ws)[0..] == Encode(ws);
    EncodeSpells(Encode(ws), 0, ws);
    DecodeEncoded(Encode(ws), 0, ws, limit, Decode(Encode(ws), 0, limit));
  }

  /** A byte that begins no sequence becomes one question mark, and the next byte is looked at. */
  lemma StrayByte(x: Byte, ws: seq<Unit>, limit: int)
    requires NulFree(ws) && (0x80 <= x < 0xC0 || 0xFE <= x) && limit > 0
    ensures Decode([x] + Encode(ws), 0, limit) == [63] + ws <==> Ample(ws, limit - 1)
  {
    var b := [x] + Encode(ws);
    ScanByte(b, 0, limit);
    assert b[1..] == Encode(ws);
    EncodeSpells(b, 1, ws);
    var d := Decode(b, 1, limit - 1);
    DecodeEncoded(b, 1, ws, limit - 1, d);
    assert ([63] + d)[1..] == d && ([63] + ws)[1..] == ws;
  }

  /** The byte length is always an ample limit. */
  lemma {:induction false} ByteLengthAmple(ws: seq<Unit>, limit: int)
    requires limit >= |Encode(ws)|
    ensures Ample(ws, limit)
    decreases |ws|
  {
    if ws == [] {
    } else {
      ByteLengthAmple(ws[1..], limit - 1);
    }
  }

  /** The number of units plus one, which is what duplicating a string passes, is ample exactly
      when the last unit takes at most two bytes. */
  lemma {:induction false} CountAmple(ws: seq<Unit>)
    ensures Ample(ws, |ws| + 1) <==> ws == [] || ws[|ws| - 1] < 0x800
    decreases |ws|
  {
    if |ws| > 1 {
      CountAmple(ws[1..]);
    } else if |ws| == 1 {
      assert ws[1..] == [];
    }
  }

  // ----- The code -----

  /** The bytes of one unit, or size -1 if they are more than maxlen. */
  method Wctomb(wc: Unit, maxlen: int) returns (size: int, out: seq<Byte>)
    requires maxlen >= 0
    ensures size == if maxlen < Size(wc) then -1 else Size(wc)
    ensures size != -1 ==> out == EncodeUnit(wc)
  {
    var k, left := 0, maxlen;
    while k < 6 && left > 0
      invariant k <= 3 && left == maxlen - k && (k > 0 ==> wc >= Table(k - 1).mask) && left >= 0
    {
      if wc < Table(k).mask {
        out := Sequence(wc, k);
        return k + 1, out;
      }
      k, left := k + 1, left - 1;
    }
    return -1, [];
  }

  lemma ShiftSix(l: nat, c: nat)
    ensures Shr(l, c + 6) == Shr(l / 64, c)
  {
    var l2 := l / 2 / 2;
    var l4 := l2 / 2 / 2;
    assert Shr(l, c + 6) == Shr(l / 2, c + 5) == Shr(l2, c + 4);
    assert Shr(l2, c + 4) == Shr(l2 / 2, c + 3) == Shr(l4, c + 2);
    assert Shr(l4, c + 2) == Shr(l4 / 2, c + 1) == Shr(l4 / 2 / 2, c);
    assert l4 / 2 / 2 == l / 64;
  }

  /** The shifts a 16-bit unit goes through. */
  lemma Shifts(l: nat)
    ensures Shr(l, 0) == l && Shr(l, 6) == l / 64 && Shr(l, 12) == l / 4096
  {
    ShiftSix(l, 0);
    ShiftSix(l, 6);
    ShiftSix(l / 64, 0);
  }

  /** The lowest c bits of a code, six to a byte, highest first. */
  function Sextets(l: nat, c: nat): seq<Byte>
    requires c % 6 == 0
  {
    if c == 0 then [] else [0x80 + Shr(l, c - 6) % 64] + Sextets(l, c - 6)
  }

  /** By the table's row for its size, a unit takes the form RFC 2279 gives it. */
  lemma RowForm(wc: Unit, k: nat)
    requires k <= 2 && wc < Table(k).mask && (k > 0 ==> wc >= Table(k - 1).mask)
    ensures var f := Table(k);
            && f.val * f.divisor + Shr(wc, f.shift) < 256
            && [f.val * f.divisor + Shr(wc, f.shift)] + Sextets(wc, f.shift) == EncodeUnit(wc)
  {
    Shifts(wc);
    assert Sextets(wc, 0) == [];
    assert Sextets(wc, 6) == [0x80 + wc % 64] + Sextets(wc, 0);
    assert Sextets(wc, 12) == [0x80 + wc / 64 % 64] + Sextets(wc, 6);
  }

  lemma SextetNext(out: seq<Byte>, l: nat, c: nat, all: seq<Byte>)
    requires c > 0 && c % 6 == 0 && out + Sextets(l, c) == all
    ensures c >= 6 && (c - 6) % 6 == 0 && (out + [0x80 + Shr(l, c - 6) % 64]) + Sextets(l, c - 6) == all
  {
    Regroup(out, [0x80 + Shr(l, c - 6) % 64], Sextets(l, c - 6));
  }

  /** The bytes of a unit by row k of the table: the lead byte, then six bits at a time. */
  method Sequence(wc: Unit, k: nat) returns (out: seq<Byte>)
    requires k <= 2 && wc < Table(k).mask && (k > 0 ==> wc >= Table(k - 1).mask)
    ensures out == EncodeUnit(wc)
  {
    var f := Table(k);
    var c := f.shift;
    RowForm(wc, k);
    out := [f.val * f.divisor + Shr(wc, c)];
    ghost var all := EncodeUnit(wc);
    while c > 0
      invariant c % 6 == 0 && out + Sextets(wc, c) == all
    {
      SextetNext(out, wc, c, all);
      c := c - 6;
      out := out + [0x80 + Shr(wc, c) % 64];
    }
  }

  /** One sequence of a string: its unit and size, or size -1. */
  method Mbtowc(b: seq<Byte>, pos: nat, n: int) returns (size: int, unit: Unit)
    ensures var r := Scan(b, pos, n, 0, ByteAt(b, pos));
            if r.Got? then size == r.size && unit == r.unit else size == -1
  {
    var k: nat, l: nat := 0, ByteAt(b, pos);
    while k < 6
      invariant k <= 6 && Scan(b, pos, n, k, l) == Scan(b, pos, n, 0, ByteAt(b, pos))
    {
      var f := Table(k);
      if ByteAt(b, pos) / f.divisor == f.val {
        if l % f.mask < f.least {
          return -1, 0;
        }
        return k + 1, l % f.mask % 0x1_0000;
      }
      if n <= k + 1 {
        return -1, 0;
      }
      var c := ByteAt(b, pos + k + 1);
      if c / 64 != 2 {
        return -1, 0;
      }
      l := l * 64 + c % 64;
      k := k + 1;
    }
    return -1, 0;
  }

  /** The unit at a position, and where the next one starts. */
  method NextUnit(src: seq<Byte>, pos: nat, left: int) returns (unit: Unit, next: nat)
    requires left > 0 && ByteAt(src, pos) != 0
    ensures Decode(src, pos, left) == [unit] + Decode(src, next, left - 1)
  {
    if ByteAt(src, pos) >= 0x80 {
      var size;
      size, unit := Mbtowc(src, pos, left);
      if size == -1 {
        return '?' as nat, pos + 1;
      }
      return unit, pos + size;
    }
    return ByteAt(src, pos), pos + 1;
  }

  /** A string of bytes to units. */
  method Mbstowcs(src: seq<Byte>, maxlen: int) returns (ok: bool, dest: seq<Unit>)
    ensures dest == Decode(src, 0, maxlen) && (ok <==> maxlen >= 0)
  {
    var pos: nat, left := 0, maxlen;
    dest := [];
    ghost var all := Decode(src, 0, maxlen);
    while left > 0 && ByteAt(src, pos) != 0
      invariant dest + Decode(src, pos, left) == all && (left < maxlen ==> left >= 0) && left <= maxlen
      decreases left
    {
      var unit, next := NextUnit(src, pos, left);
      assert dest + ([unit] + Decode(src, next, left - 1)) == (dest + [unit]) + Decode(src, next, left - 1);
      dest, pos, left := dest + [unit], next, left - 1;
    }
    return left >= 0, dest;
  }

  // ----- Encoding into a buffer -----

  function Question(): Byte {
    63
  }

  /** Units to bytes with room for left bytes: a unit that does not fit becomes a question mark. */
  function EncodeIn(ws: seq<Unit>, left: int): (b: seq<Byte>)
    decreases |ws|
  {
    if left <= 0 || ws == [] || ws[0] == 0 then []
    else
      var e := EncodeUnit(ws[0]);
      if |e| <= left then e + EncodeIn(ws[1..], left - |e|) else [Question()] + EncodeIn(ws[1..], left - 1)
  }

  /** Where three bytes do not fit, one question mark does, and the next unit still may. */
  lemma NoRoom(u: Unit, v: Unit)
    requires u >= 0x800 && 0 < v < 0x80
    ensures EncodeIn([u, v], 2) == [63, v] && EncodeIn([u, v], 1) == [63]
  {
    assert [u, v][1..] == [v] && [v][1..] == [];
    assert EncodeIn([], 0) == [];
    assert EncodeIn([v], 1) == [v] + EncodeIn([], 0);
  }

  lemma {:induction false} EncodeInBound(ws: seq<Unit>, left: int)
    ensures left >= 0 ==> |EncodeIn(ws, left)| <= left
    decreases |ws|
  {
    if !(left <= 0 || ws == [] || ws[0] == 0) {
      var e := EncodeUnit(ws[0]);
      if |e| <= left {
        EncodeInBound(ws[1..], left - |e|);
      } else {
        EncodeInBound(ws[1..], left - 1);
      }
    }
  }

  lemma {:induction false} EncodeInFits(ws: seq<Unit>, left: int)
    requires NulFree(ws) && |Encode(ws)| <= left
    ensures EncodeIn(ws, left) == Encode(ws)
    decreases |ws|
  {
    if ws == [] {
    } else {
      EncodeInFits(ws[1..], left - Size(ws[0]));
    }
  }

  /** The whole encoding comes out exactly when it and its terminator fit the buffer. */
  lemma EncodeInWhole(ws: seq<Unit>, left: int)
    requires NulFree(ws) && left >= 0
    ensures EncodeIn(ws, left) == Encode(ws) <==> |Encode(ws)| <= left
  {
    EncodeInBound(ws, left);
    if |Encode(ws)| <= left {
      EncodeInFits(ws, left);
    }
  }

  /** What one unit becomes with left bytes of room. */
  function UnitIn(u: Unit, left: int): (b: seq<Byte>)
    ensures 1 <= |b| <= 3 && (left > 0 ==> |b| <= left)
  {
    if Size(u) <= left then EncodeUnit(u) else [Question()]
  }

  lemma EncodeInStep(ws: seq<Unit>, left: int)
    requires left > 0 && ws != [] && ws[0] != 0
    ensures EncodeIn(ws, left) == UnitIn(ws[0], left) + EncodeIn(ws[1..], left - |UnitIn(ws[0], left)|)
  {
  }

  method PutUnit(u: Unit, left: int) returns (out: seq<Byte>)
    requires left > 0
    ensures out == UnitIn(u, left)
  {
    if u > 0x7f {
      var size;
      size, out := Wctomb(u, left);
      if size == -1 {
        return [Question()];
      }
    } else {
      out := [u];
    }
  }

  lemma EncodeInNext(dest: seq<Byte>, src: seq<Unit>, i: nat, left: int, out: seq<Byte>, all: seq<Byte>)
    requires left > 0 && i < |src| && src[i] != 0 && out == UnitIn(src[i], left)
    requires dest + EncodeIn(src[i..], left) == all
    ensures (dest + out) + EncodeIn(src[i + 1..], left - |out|) == all
  {
    var rest := src[i..];
    assert rest[0] == src[i] && rest[1..] == src[i + 1..];
    EncodeInStep(rest, left);
    Regroup(dest, out, EncodeIn(src[i + 1..], left - |out|));
  }

  /** A string of units to bytes, in a buffer of maxlen bytes with the terminator. */
  method Wcstombs(src: seq<Unit>, maxlen: int) returns (ok: bool, dest: seq<Byte>)
    ensures dest == EncodeIn(src, maxlen - 1) && (ok <==> maxlen >= 1)
  {
    var left, i := maxlen - 1, 0;
    dest := [];
    ghost var all := EncodeIn(src, left);
    while left > 0 && i < |src| && src[i] != 0
      invariant i <= |src| && dest + EncodeIn(src[i..], left) == all && (maxlen >= 1 <==> left >= 0)
    {
      var out := PutUnit(src[i], left);
      EncodeInNext(dest, src, i, left, out, all);
      dest, left, i := dest + out, left - |out|, i + 1;
    }
    return left >= 0, dest;
  }

  lemma Regroup(a: seq<Byte>, b: seq<Byte>, c: seq<Byte>)
    ensures a + (b + c) == (a + b) + c
  {
  }

  lemma {:induction false} EncodeAppend(ws: seq<Unit>, u: Unit)
    ensures Encode(ws + [u]) == Encode(ws) + EncodeUnit(u)
  {
    if ws == [] {
      assert ws + [u] == [u] && [u][1..] == [];
    } else {
      EncodeAppend(ws[1..], u);
      assert (ws + [u])[0] == ws[0] && (ws + [u])[1..] == ws[1..] + [u];
      Regroup(EncodeUnit(ws[0]), Encode(ws[1..]), EncodeUnit(u));
    }
  }

  /** The predicted length of an encoding, of the first maxlen units if there are more. */
  method WctowbStrlen(src: seq<Unit>, maxlen: int) returns (length: nat)
    requires NulFree(src)
    ensures length == |Encode(if maxlen < 0 then [] else if maxlen < |src| then src[..maxlen] else src)|
  {
    var left, i := maxlen, 0;
    length := 0;
    while left > 0 && i < |src| && src[i] != 0
      invariant i <= |src| && left == maxlen - i && (i > 0 ==> left >= 0) && length == |Encode(src[..i])|
    {
      EncodeAppend(src[..i], src[i]);
      assert src[..i] + [src[i]] == src[..i + 1];
      var size := 1;
      if src[i] > 0x7f {
        var out;
        size, out := Wctomb(src[i], 8);
        if size == -1 {
          size := 1;
        }
      }
      length, left, i := length + size, left - 1, i + 1;
    }
    assert src[..|src|] == src;
  }

  /** Encode, measure, decode: with the measured buffer and at least its length as the limit,
      every string comes back. */
  method ThereAndBack(ws: seq<Unit>, limit: int) returns (back: seq<Unit>)
    requires NulFree(ws)
    ensures limit >= |Encode(ws)| ==> back == ws
    ensures back == ws <==> Ample(ws, limit)
  {
    var n := WctowbStrlen(ws, |ws|);
    var ok, bytes := Wcstombs(ws, n + 1);
    EncodeInFits(ws, n);
    ok, back := Mbstowcs(bytes, limit);
    RoundTrip(ws, limit);
    if limit >= |Encode(ws)| {
      ByteLengthAmple(ws, limit);
    }
  }

  // ----- Duplicating a string -----

  /** Units counted in the first left bytes from pos on. */
  function Count(b: seq<Byte>, pos: nat, left: int): nat
    decreases left
  {
    if left <= 0 || ByteAt(b, pos) == 0 then 0
    else if ByteAt(b, pos) < 0x80 then 1 + Count(b, pos + 1, left - 1)
    else match Scan(b, pos, left, 0, ByteAt(b, pos))
      case Bad => 1 + Count(b, pos + 1, left - 1)
      case Got(_, n) => 1 + Count(b, pos + n, left - n)
  }

  lemma CountUnit(b: seq<Byte>, pos: nat, left: int, u: Unit, n: nat)
    requires u != 0 && n == Size(u) <= left && IsCode(b, pos, u)
    ensures Count(b, pos, left) == 1 + Count(b, pos + n, left - n)
  {
    assert b[pos] == EncodeUnit(u)[0];
    if u >= 0x80 {
      ScanUnit(b, pos, left, u);
    }
  }

  lemma SpellsNext(b: seq<Byte>, pos: nat, ws: seq<Unit>, u: Unit, n: nat, rest: seq<Unit>)
    requires ws != [] && u == ws[0] && n == Size(u) && rest == ws[1..] && NulFree(ws) && Spells(b, pos, ws)
    ensures u != 0 && IsCode(b, pos, u) && NulFree(rest) && Spells(b, pos + n, rest) && pos + n <= |b|
  {
  }

  /** At pos, with left bytes to go, the units ws lie, and count of them are counted. */
  ghost predicate Counting(b: seq<Byte>, pos: nat, ws: seq<Unit>, left: nat, count: nat) {
    NulFree(ws) && Spells(b, pos, ws) && pos + left == |b| && count == Count(b, pos, left)
  }

  lemma CountingNext(b: seq<Byte>, pos: nat, ws: seq<Unit>, left: nat, count: nat, n: nat) returns (c: nat)
    requires ws != [] && n == Size(ws[0]) && Counting(b, pos, ws, left, count)
    ensures n <= left && Counting(b, pos + n, ws[1..], left - n, c) && count == 1 + c
  {
    var (u, rest) := (ws[0], ws[1..]);
    SpellsNext(b, pos, ws, u, n, rest);
    CountUnit(b, pos, left, u, n);
    c := Count(b, pos + n, left - n);
  }

  lemma {:induction false} CountEncoded(b: seq<Byte>, pos: nat, ws: seq<Unit>, left: nat, count: nat)
    requires Counting(b, pos, ws, left, count)
    ensures count == |ws|
    decreases |ws|
  {
    if ws == [] {
    } else {
      var n := Size(ws[0]);
      var c := CountingNext(b, pos, ws, left, count, n);
      CountEncoded(b, pos + n, ws[1..], left - n, c);
    }
  }

  /** A byte that begins no sequence counts as one unit. */
  lemma CountStray(x: Byte, ws: seq<Unit>)
    requires NulFree(ws) && (0x80 <= x < 0xC0 || 0xFE <= x)
    ensures var b := [x] + Encode(ws); Count(b, 0, |b|) == 1 + |ws|
  {
    var b := [x] + Encode(ws);
    ScanByte(b, 0, |b|);
    assert b[1..] == Encode(ws);
    EncodeSpells(b, 1, ws);
    CountEncoded(b, 1, ws, |b| - 1, Count(b, 1, |b| - 1));
  }

  method NextSize(src: seq<Byte>, pos: nat, left: int) returns (size: nat)
    requires left > 0 && ByteAt(src, pos) != 0
    ensures size > 0 && Count(src, pos, left) == 1 + Count(src, pos + size, left - size)
  {
    size := 1;
    if ByteAt(src, pos) >= 0x80 {
      var n, unit := Mbtowc(src, pos, left);
      if n != -1 {
        size := n;
      }
    }
  }

  method MbStrlen(src: seq<Byte>) returns (length: nat)
    requires forall i :: 0 <= i < |src| ==> src[i] != 0
    ensures length == Count(src, 0, |src|)
  {
    var pos: nat, left: int := 0, |src|;
    length := 0;
    ghost var all := Count(src, 0, |src|);
    while left > 0 && ByteAt(src, pos) != 0
      invariant length + Count(src, pos, left) == all
      decreases left
    {
      var size := NextSize(src, pos, left);
      length, pos, left := length + 1, pos + size, left - size;
    }
  }

  function Duplicate(src: seq<Byte>): seq<Unit> {
    Decode(src, 0, Count(src, 0, |src|) + 1)
  }

  /** Duplicates a string as units, with one more than their number as the limit. */
  method DupToWc(src: seq<Byte>) returns (ok: bool, dest: seq<Unit>)
    requires forall i :: 0 <= i < |src| ==> src[i] != 0
    ensures dest == Duplicate(src)
  {
    var n := MbStrlen(src);
    ok, dest := Mbstowcs(src, n + 1);
  }

  lemma DuplicateOf(ws: seq<Unit>, b: seq<Byte>)
    requires NulFree(ws) && b == Encode(ws)
    ensures Duplicate(b) == ws <==> Ample(ws, |ws| + 1)
  {
    assert b[0..] == b;
    EncodeSpells(b, 0, ws);
    CountEncoded(b, 0, ws, |b|, Count(b, 0, |b|));
    DecodeEncoded(b, 0, ws, |ws| + 1, Duplicate(b));
  }

  /** A duplicate is true to the string exactly when its last unit takes at most two bytes. */
  lemma DuplicateTrue(ws: seq<Unit>)
    requires NulFree(ws)
    ensures Duplicate(Encode(ws)) == ws <==> ws == [] || ws[|ws| - 1] < 0x800
  {
    DuplicateOf(ws, Encode(ws));
    CountAmple(ws);
  }

  /** The euro sign does not survive. */
  lemma EuroSign()
    ensures Duplicate(Encode([0x20AC])) != [0x20AC]
  {
    DuplicateTrue([0x20AC]);
  }
}
