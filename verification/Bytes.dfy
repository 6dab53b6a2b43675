/** Bytes, 512-byte sectors and little-endian integers, as the x86 code reads them. */
module Bytes {

  datatype Option<+T> = None | Some(value: T)

  type Byte = x: int | 0 <= x < 256

  type Sector = s: seq<Byte> | |s| == 512 witness seq(512, _ => 0)

  function Zeros(n: nat): (r: seq<Byte>)
    ensures |r| == n && forall i :: 0 <= i < n ==> r[i] == 0
  {
    seq(n, _ => 0)
  }

  function ZeroSector(): Sector { Zeros(512) }

  function Min(a: nat, b: nat): nat { if a < b then a else b }

  function Max(a: nat, b: nat): nat { if a < b then b else a }

  /** `a * b` as repeated addition: the solver then meets products of two variables only in the few
      lemmas that are about them. */
  function Times(a: nat, b: nat): nat {
    if a == 0 then 0 else Times(a - 1, b) + b
  }

  lemma {:induction false} TimesIs(a: nat, b: nat)
    ensures Times(a, b) == a * b
  {
    if a > 0 {
      TimesIs(a - 1, b);
      assert a * b == (a - 1) * b + b;
    }
  }

  lemma {:induction false} TimesMono(a: nat, b: nat, k: nat)
    ensures a <= b ==> Times(a, k) <= Times(b, k)
    ensures a < b ==> Times(a, k) + k <= Times(b, k)
    decreases b
  {
    if a < b { TimesMono(a, b - 1, k); }
  }

  /** Quotient and remainder are unique. */
  lemma TimesUnique(q: nat, r: nat, q': nat, r': nat, n: nat)
    requires r < n && r' < n && Times(q, n) + r == Times(q', n) + r'
    ensures q == q' && r == r'
  {
    TimesMono(q, q', n);
    TimesMono(q', q, n);
  }

  lemma TimesSplit(x: nat, n: nat)
    requires n > 0
    ensures x % n < n && x == Times(x / n, n) + x % n
  {
    TimesIs(x / n, n);
    assert x == (x / n) * n + x % n;
  }

  lemma TimesDiv(q: nat, r: nat, n: nat)
    requires r < n
    ensures (Times(q, n) + r) / n == q && (Times(q, n) + r) % n == r
  {
    TimesSplit(Times(q, n) + r, n);
    TimesUnique(q, r, (Times(q, n) + r) / n, (Times(q, n) + r) % n, n);
  }

  function U16(s: seq<Byte>, o: nat): nat
    requires o + 2 <= |s|
  {
    s[o] as int + 0x100 * (s[o + 1] as int)
  }

  function U32(s: seq<Byte>, o: nat): nat
    requires o + 4 <= |s|
  {
    s[o] as int + 0x100 * (s[o + 1] as int) + 0x1_0000 * (s[o + 2] as int) + 0x100_0000 * (s[o + 3] as int)
  }

  function U64(s: seq<Byte>, o: nat): nat
    requires o + 8 <= |s|
  {
    U32(s, o) + 0x1_0000_0000 * U32(s, o + 4)
  }

  /** The value of bytes that lie low byte first. */
  function LittleEndian(b: seq<Byte>): nat {
    if |b| == 0 then 0 else b[0] as int + 0x100 * LittleEndian(b[1..])
  }

  /** The low byte comes first: what each byte of a stored number is. */
  lemma LowByteFirst(s: seq<Byte>, o: nat)
    ensures o + 2 <= |s| ==> U16(s, o) % 0x100 == s[o] && U16(s, o) / 0x100 == s[o + 1]
    ensures o + 4 <= |s| ==> U32(s, o) % 0x1_0000 == U16(s, o) && U32(s, o) / 0x1_0000 == U16(s, o + 2)
    ensures o + 8 <= |s| ==> U64(s, o) % 0x1_0000_0000 == U32(s, o) && U64(s, o) / 0x1_0000_0000 == U32(s, o + 4)
  {
    if o + 2 <= |s| { Split8(s[o], s[o + 1]); }
    if o + 4 <= |s| {
      assert U32(s, o) == U16(s, o) + 0x1_0000 * U16(s, o + 2);
      Split16(U16(s, o), U16(s, o + 2));
    }
    if o + 8 <= |s| { Split32(U32(s, o), U32(s, o + 4)); }
  }

  lemma Split8(lo: int, hi: int)
    requires 0 <= lo < 0x100
    ensures (lo + 0x100 * hi) % 0x100 == lo && (lo + 0x100 * hi) / 0x100 == hi
  {}

  lemma Split16(lo: int, hi: int)
    requires 0 <= lo < 0x1_0000
    ensures (lo + 0x1_0000 * hi) % 0x1_0000 == lo && (lo + 0x1_0000 * hi) / 0x1_0000 == hi
  {}

  lemma Split32(lo: int, hi: int)
    requires 0 <= lo < 0x1_0000_0000
    ensures (lo + 0x1_0000_0000 * hi) % 0x1_0000_0000 == lo && (lo + 0x1_0000_0000 * hi) / 0x1_0000_0000 == hi
  {}

  lemma TwoBytes(b: seq<Byte>)
    requires |b| == 2
    ensures LittleEndian(b) == b[0] as int + 0x100 * (b[1] as int)
  {
    var r := b[1..];
    assert r[1..] == [];
    assert LittleEndian(r) == r[0] as int + 0x100 * LittleEndian(r[1..]);
  }

  lemma TwoThen(a: seq<Byte>, b: seq<Byte>)
    requires |a| == 2
    ensures LittleEndian(a + b) == LittleEndian(a) + 0x1_0000 * LittleEndian(b)
  {
    var s := a + b;
    var r := s[1..];
    assert r[1..] == b;
    assert LittleEndian(r) == r[0] as int + 0x100 * LittleEndian(r[1..]);
    TwoBytes(a);
  }

  lemma FourThen(a: seq<Byte>, b: seq<Byte>)
    requires |a| == 4
    ensures LittleEndian(a + b) == LittleEndian(a) + 0x1_0000_0000 * LittleEndian(b)
  {
    var x, y := a[..2], a[2..];
    assert a + b == x + (y + b) && a == x + y;
    TwoThen(x, y + b);
    TwoThen(y, b);
    TwoThen(x, y);
  }

  /** Two, four and eight bytes as the x86 reads them. */
  lemma ReadsLittleEndian(s: seq<Byte>, o: nat)
    ensures o + 2 <= |s| ==> U16(s, o) == LittleEndian(s[o..o + 2])
    ensures o + 4 <= |s| ==> U32(s, o) == LittleEndian(s[o..o + 4])
    ensures o + 8 <= |s| ==> U64(s, o) == LittleEndian(s[o..o + 8])
  {
    if o + 2 <= |s| { ReadsTwo(s, o); }
    if o + 4 <= |s| { ReadsFour(s, o); }
    if o + 8 <= |s| {
      ReadsFour(s, o);
      ReadsFour(s, o + 4);
      assert s[o..o + 8] == s[o..o + 4] + s[o + 4..o + 8];
      FourThen(s[o..o + 4], s[o + 4..o + 8]);
    }
  }

  lemma ReadsTwo(s: seq<Byte>, o: nat)
    requires o + 2 <= |s|
    ensures U16(s, o) == LittleEndian(s[o..o + 2])
  {
    TwoBytes(s[o..o + 2]);
  }

  lemma ReadsFour(s: seq<Byte>, o: nat)
    requires o + 4 <= |s|
    ensures U32(s, o) == LittleEndian(s[o..o + 4])
  {
    ReadsTwo(s, o);
    ReadsTwo(s, o + 2);
    assert s[o..o + 4] == s[o..o + 2] + s[o + 2..o + 4];
    TwoThen(s[o..o + 2], s[o + 2..o + 4]);
  }

  /** 3 is stored as 03 00 00 00, and the bytes FF FF FF 0F are 0x0FFFFFFF. */
  lemma StoredNumbers()
    ensures LittleEndian([3, 0, 0, 0]) == 3 && U32([3, 0, 0, 0], 0) == 3
    ensures U32([0xFF, 0xFF, 0xFF, 0x0F], 0) == 0x0FFF_FFFF && U16([0x34, 0x12], 0) == 0x1234
  {
    ReadsFour([3, 0, 0, 0], 0);
    assert [3, 0, 0, 0][0..4] == [3, 0, 0, 0];
  }

  function PutU16(s: seq<Byte>, o: nat, w: nat): (r: seq<Byte>)
    requires o + 2 <= |s| && w < 0x1_0000
    ensures |r| == |s| && U16(r, o) == w
    ensures forall i :: 0 <= i < |s| && !(o <= i < o + 2) ==> r[i] == s[i]
  {
    s[o := w % 0x100][o + 1 := w / 0x100]
  }

  lemma FourBytes(w: nat)
    ensures w == w % 0x100 + 0x100 * (w / 0x100 % 0x100) + 0x1_0000 * (w / 0x1_0000 % 0x100) + 0x100_0000 * (w / 0x100_0000)
  {
    var a := w / 0x100;
    var b := a / 0x100;
    assert b == w / 0x1_0000 && b / 0x100 == w / 0x100_0000;
  }

  function PutU32(s: seq<Byte>, o: nat, w: nat): (r: seq<Byte>)
    requires o + 4 <= |s| && w < 0x1_0000_0000
    ensures |r| == |s| && U32(r, o) == w
    ensures forall i :: 0 <= i < |s| && !(o <= i < o + 4) ==> r[i] == s[i]
  {
    FourBytes(w);
    s[..o] + [w % 0x100, w / 0x100 % 0x100, w / 0x1_0000 % 0x100, w / 0x100_0000] + s[o + 4..]
  }

  /** The `k`-th 32-bit word of a sector. */
  function Word(s: Sector, k: nat): (w: nat)
    requires k < 128
    ensures w < 0x1_0000_0000
  {
    U32(s, 4 * k)
  }

  function PutWord(s: Sector, k: nat, w: nat): (r: Sector)
    requires k < 128 && w < 0x1_0000_0000
    ensures forall j :: 0 <= j < 128 ==> Word(r, j) == if j == k then w else Word(s, j)
  {
    PutU32(s, 4 * k, w)
  }
}
