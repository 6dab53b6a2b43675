/** 8.3 names: `writeFileName` and `readFileName` of kernel/fat32.c, and exactly when the second
    undoes the first. */
module FatNames {
  import opened Bytes

  const SPACE: Byte := 0x20
  const DOT: Byte := 0x2E

  // ----- What the two functions compute

  /** The characters of a C string that starts at `mem`. */
  function CStr(mem: seq<Byte>): (r: seq<Byte>)
    ensures |r| <= |mem| && r == mem[..|r|] && 0 !in r
    ensures |r| < |mem| ==> mem[|r|] == 0
  {
    if |mem| == 0 || mem[0] == 0 then [] else [mem[0]] + CStr(mem[1..])
  }

  /** Position of the first "." or NUL, but at most 8. */
  function BaseLen(mem: seq<Byte>, i: nat := 0): (b: nat)
    requires i <= 8 < |mem|
    ensures i <= b <= 8
    ensures forall k :: i <= k < b ==> mem[k] != 0 && mem[k] != DOT
    ensures b < 8 ==> mem[b] == 0 || mem[b] == DOT
    decreases 8 - i
  {
    if i == 8 || mem[i] == 0 || mem[i] == DOT then i else BaseLen(mem, i + 1)
  }

  function Spaces(n: nat): (r: seq<Byte>)
    ensures |r| == n && forall i :: 0 <= i < n ==> r[i] == SPACE
  {
    seq(n, _ => SPACE)
  }

  /** The three bytes stored as the extension. */
  function ExtOf(mem: seq<Byte>): (r: seq<Byte>)
    requires |mem| >= 12
    ensures |r| == 3
  {
    var b := BaseLen(mem);
    if b < 8 && mem[b] == 0 then Spaces(3) else mem[b + 1..b + 4]
  }

  /** The 11 bytes stored for the name at `mem`; the code may read up to 12 bytes there. */
  function Encoded(mem: seq<Byte>): (r: seq<Byte>)
    requires |mem| >= 12
    ensures |r| == 11 && r[0] != 0
  {
    var b := BaseLen(mem);
    mem[..b] + Spaces(8 - b) + ExtOf(mem)
  }

  function Strip(s: seq<Byte>): (r: seq<Byte>)
    ensures |r| <= |s| && r == s[..|r|]
    ensures forall i :: |r| <= i < |s| ==> s[i] == SPACE
    ensures |r| > 0 ==> r[|r| - 1] != SPACE
  {
    if |s| == 0 || s[|s| - 1] != SPACE then s else Strip(s[..|s| - 1])
  }

  /** The bytes before the final NUL that `readFileName` writes. */
  function Decoded(raw: seq<Byte>): (r: seq<Byte>)
    requires |raw| >= 11
    ensures |r| <= 12 && (r == [] || r[0] != 0)
  {
    if raw[0] == 0 then []
    else Strip(raw[..8]) + (if raw[8] == SPACE then [] else [DOT] + raw[8..11])
  }

  // ----- The two functions

  method ReadFileName(fat32Name: seq<Byte>, filename: array<Byte>)
    requires |fat32Name| >= 11 && filename.Length >= 13
    modifies filename
    ensures filename[..|Decoded(fat32Name)|] == Decoded(fat32Name)
    ensures filename[|Decoded(fat32Name)|] == 0
  {
    hide Strip;
    if fat32Name[0] == 0 {
      filename[0] := 0;
    } else {
      var index := LastCharacter(fat32Name);
      ghost var base := Strip(fat32Name[..8]);
      for i := 0 to index + 1
        invariant forall k :: 0 <= k < i ==> filename[k] == fat32Name[k]
      {
        filename[i] := fat32Name[i];
      }
      if fat32Name[8] == SPACE {
        filename[index + 1] := 0;
        assert filename[..|base|] == base + [];
      } else {
        ReadExtension(fat32Name, filename, index + 1);
        assert filename[..index + 5] == base + ([DOT] + fat32Name[8..11]);
      }
    }
  }

  /** The first loop of `readFileName`: the index of the last character that is not a trailing space, or -1. */
  method LastCharacter(fat32Name: seq<Byte>) returns (index: int)
    requires |fat32Name| >= 11
    ensures -1 <= index <= 7 && Strip(fat32Name[..8]) == fat32Name[..index + 1]
  {
    index := 7;
    while index >= 0 && fat32Name[index] == SPACE
      invariant -1 <= index <= 7
      invariant Strip(fat32Name[..8]) == Strip(fat32Name[..index + 1])
    {
      assert fat32Name[..index + 1][..index] == fat32Name[..index];
      index := index - 1;
    }
  }

  /** The last part of `readFileName`: "." and the extension at position `at`, and a NUL. */
  method ReadExtension(fat32Name: seq<Byte>, filename: array<Byte>, at: nat)
    requires |fat32Name| >= 11 && filename.Length >= 13 && at <= 8
    modifies filename
    ensures filename[at] == DOT && filename[at + 4] == 0
    ensures forall k :: at + 1 <= k < at + 4 ==> filename[k] == fat32Name[k - at + 7]
    ensures forall k :: 0 <= k < at ==> filename[k] == old(filename[k])
  {
    filename[at] := DOT;
    for i := 0 to 3
      invariant filename[at] == DOT
      invariant forall k :: 0 <= k < at ==> filename[k] == old(filename[k])
      invariant forall k :: at + 1 <= k < at + 1 + i ==> filename[k] == fat32Name[k - at + 7]
    {
      filename[at + i + 1] := fat32Name[8 + i];
    }
    filename[at + 4] := 0;
  }

  method WriteFileName(fat32Name: array<Byte>, filename: seq<Byte>)
    requires fat32Name.Length >= 11 && |filename| >= 12
    modifies fat32Name
    ensures fat32Name[..11] == Encoded(filename)
    ensures forall i :: 11 <= i < fat32Name.Length ==> fat32Name[i] == old(fat32Name[i])
  {
    hide Encoded, ExtOf;
    for i := 0 to 11
      invariant forall k :: 0 <= k < i ==> fat32Name[k] == SPACE
      invariant forall k :: 11 <= k < fat32Name.Length ==> fat32Name[k] == old(fat32Name[k])
    {
      fat32Name[i] := SPACE;
    }
    var index := WriteBase(fat32Name, filename);
    NoExtension(filename);
    if index < 8 && filename[index] == 0 {
      EncodedIs(filename, fat32Name[..11]);
      return;
    }
    WriteExtension(fat32Name, filename, index);
    EncodedIs(filename, fat32Name[..11]);
  }

  /** The last loop of `writeFileName`. */
  method WriteExtension(fat32Name: array<Byte>, filename: seq<Byte>, index: nat)
    requires fat32Name.Length >= 11 && index <= 8 && |filename| >= 12
    modifies fat32Name
    ensures forall k :: 0 <= k < fat32Name.Length ==>
              fat32Name[k] == if 8 <= k < 11 then filename[k + index - 7] else old(fat32Name[k])
  {
    for i := 0 to 3
      invariant forall k :: 0 <= k < fat32Name.Length ==>
                  fat32Name[k] == if 8 <= k < 8 + i then filename[k + index - 7] else old(fat32Name[k])
    {
      fat32Name[8 + i] := filename[index + i + 1];
    }
  }

  /** The loop of `writeFileName` over the base of the name; the caller returns at a NUL. */
  method WriteBase(fat32Name: array<Byte>, filename: seq<Byte>) returns (index: nat)
    requires fat32Name.Length >= 11 && |filename| >= 12
    modifies fat32Name
    ensures index == BaseLen(filename)
    ensures forall k :: 0 <= k < fat32Name.Length ==> fat32Name[k] == if k < index then filename[k] else old(fat32Name[k])
  {
    index := 0;
    while index < 8 && filename[index] != DOT
      invariant 0 <= index <= 8 && BaseLen(filename) == BaseLen(filename, index)
      invariant forall k :: 0 <= k < fat32Name.Length ==> fat32Name[k] == if k < index then filename[k] else old(fat32Name[k])
    {
      if filename[index] == 0 {
        return;
      }
      fat32Name[index] := filename[index];
      index := index + 1;
    }
  }

  lemma NoExtension(mem: seq<Byte>)
    requires |mem| >= 12
    ensures var b := BaseLen(mem); ExtOf(mem) == if b < 8 && mem[b] == 0 then Spaces(3) else mem[b + 1..b + 4]
  {}

  // ----- The round trip

  /** A condition on the name alone (and, for eight characters without extension, on the byte that
      follows its NUL): the base does not end in a space, and either there is no extension and at
      most seven characters, or the extension has at most three characters and does not start with
      a space, or the name has eight characters and a space follows its NUL. */
  predicate Storable(mem: seq<Byte>)
    requires |mem| >= 12
  {
    var b := BaseLen(mem);
    && (b > 0 ==> mem[b - 1] != SPACE)
    && if b < 8 && mem[b] == 0 then true
       else if mem[b] == DOT then mem[b + 1] != SPACE && |CStr(mem)| <= b + 4
       else |CStr(mem)| == 8 && mem[9] == SPACE
  }

  lemma {:induction false} CStrAppend(s: seq<Byte>, rest: seq<Byte>)
    requires 0 !in s
    ensures CStr(s + rest) == s + CStr(rest)
  {
    if |s| == 0 {
      assert s + rest == rest;
    } else {
      assert (s + rest)[1..] == s[1..] + rest;
      CStrAppend(s[1..], rest);
    }
  }

  lemma {:induction false} CStrStops(m: seq<Byte>)
    requires |m| > 0 && m[|m| - 1] == 0
    ensures |CStr(m)| < |m|
  {
    if m[0] != 0 { CStrStops(m[1..]); }
  }

  lemma {:induction false} CStrTerminated(s: seq<Byte>, buffer: seq<Byte>)
    requires |s| < |buffer| && buffer[..|s|] == s && buffer[|s|] == 0
    ensures CStr(buffer) == CStr(s)
  {
    if |s| > 0 && s[0] != 0 {
      assert buffer[1..][..|s| - 1] == buffer[..|s|][1..];
      CStrTerminated(s[1..], buffer[1..]);
    }
  }

  lemma {:induction false} StripSpaces(s: seq<Byte>, n: nat)
    ensures Strip(s + Spaces(n)) == Strip(s)
  {
    if n == 0 {
      assert s + Spaces(0) == s;
    } else {
      var p := s + Spaces(n);
      assert p[..|p| - 1] == s + Spaces(n - 1);
      StripSpaces(s, n - 1);
    }
  }

  lemma EncodedParts(mem: seq<Byte>)
    requires |mem| >= 12
    ensures Encoded(mem)[..8] == mem[..BaseLen(mem)] + Spaces(8 - BaseLen(mem)) && Encoded(mem)[8..11] == ExtOf(mem)
  {
    hide BaseLen, ExtOf, Spaces;
    var p, e := mem[..BaseLen(mem)] + Spaces(8 - BaseLen(mem)), ExtOf(mem);
    assert (p + e)[..8] == p && (p + e)[8..11] == e;
  }

  lemma EncodedIs(mem: seq<Byte>, raw: seq<Byte>)
    requires |mem| >= 12 && |raw| == 11
    requires forall k :: 0 <= k < 8 ==> raw[k] == if k < BaseLen(mem) then mem[k] else SPACE
    requires forall k :: 8 <= k < 11 ==> raw[k] == ExtOf(mem)[k - 8]
    ensures raw == Encoded(mem)
  {
    hide BaseLen, Encoded, ExtOf;
    EncodedParts(mem);
    assert raw[..8] == Encoded(mem)[..8];
    assert raw[8..11] == Encoded(mem)[8..11];
    assert raw == raw[..8] + raw[8..11] && Encoded(mem) == Encoded(mem)[..8] + Encoded(mem)[8..11];
  }

  function Shown(kept: seq<Byte>, ext: seq<Byte>): seq<Byte>
    requires |ext| == 3
  {
    kept + if ext[0] == SPACE then [] else [DOT] + CStr(ext + [0])
  }

  /** What `readFileName` gives back: the stripped base, then the extension up to a NUL. */
  lemma GivenBack(mem: seq<Byte>)
    requires |mem| >= 12
    ensures CStr(Decoded(Encoded(mem)) + [0]) == Shown(Strip(mem[..BaseLen(mem)]), ExtOf(mem))
  {
    hide *;
    StrippedBase(mem);
    DecodedIs(Encoded(mem));
    Terminated(Strip(mem[..BaseLen(mem)]), ExtOf(mem));
  }

  lemma StrippedBase(mem: seq<Byte>)
    requires |mem| >= 12
    ensures Strip(Encoded(mem)[..8]) == Strip(mem[..BaseLen(mem)]) && Encoded(mem)[8..11] == ExtOf(mem)
    ensures 0 !in Strip(mem[..BaseLen(mem)])
  {
    hide Encoded, BaseLen, ExtOf, Strip;
    EncodedParts(mem);
    var base := mem[..BaseLen(mem)];
    StripSpaces(base, 8 - BaseLen(mem));
    assert Strip(base) == base[..|Strip(base)|];
  }

  function Joined(kept: seq<Byte>, ext: seq<Byte>): seq<Byte>
    requires |ext| == 3
  {
    kept + if ext[0] == SPACE then [] else [DOT] + ext
  }

  lemma DecodedIs(raw: seq<Byte>)
    requires |raw| == 11 && raw[0] != 0
    ensures Decoded(raw) == Joined(Strip(raw[..8]), raw[8..11])
  {
    hide Strip;
  }

  lemma Terminated(kept: seq<Byte>, ext: seq<Byte>)
    requires 0 !in kept && |ext| == 3
    ensures CStr(Joined(kept, ext) + [0]) == Shown(kept, ext)
  {
    hide CStr;
    CStrStops([0]);
    if ext[0] == SPACE {
      assert kept + [] == kept;
      CStrAppend(kept, [0]);
    } else {
      assert kept + ([DOT] + ext) + [0] == (kept + [DOT]) + (ext + [0]);
      CStrAppend(kept + [DOT], ext + [0]);
    }
  }

  lemma NameParts(mem: seq<Byte>)
    requires |mem| >= 12
    ensures CStr(mem) == mem[..BaseLen(mem)] + CStr(mem[BaseLen(mem)..])
  {
    hide BaseLen, CStr;
    var b := BaseLen(mem);
    assert mem == mem[..b] + mem[b..];
    CStrAppend(mem[..b], mem[b..]);
  }

  /** `readFileName` gives back the string that was passed to `writeFileName` exactly when the name
      is storable. */
  lemma NameRoundTrip(mem: seq<Byte>)
    requires |mem| >= 12
    ensures CStr(Decoded(Encoded(mem)) + [0]) == CStr(mem) <==> Storable(mem)
  {
    hide *;
    var b := BaseLen(mem);
    if b < 8 && mem[b] == 0 {
      RoundTripShort(mem);
    } else if mem[b] == DOT {
      RoundTripDotted(mem);
    } else {
      RoundTripLong(mem);
    }
  }

  lemma RoundTripShort(mem: seq<Byte>)
    requires |mem| >= 12 && BaseLen(mem) < 8 && mem[BaseLen(mem)] == 0
    ensures CStr(Decoded(Encoded(mem)) + [0]) == CStr(mem) <==> Storable(mem)
  {
    hide *;
    GivenBack(mem);
    NameParts(mem);
    ShortParts(mem);
    ShortRoundTrip(mem, BaseLen(mem), Strip(mem[..BaseLen(mem)]), ExtOf(mem), CStr(mem));
  }

  lemma ShortParts(mem: seq<Byte>)
    requires |mem| >= 12 && BaseLen(mem) < 8 && mem[BaseLen(mem)] == 0
    ensures var b := BaseLen(mem); ExtOf(mem)[0] == SPACE && (Storable(mem) <==> (b > 0 ==> mem[b - 1] != SPACE))
  {
    hide BaseLen, CStr;
  }

  lemma RoundTripDotted(mem: seq<Byte>)
    requires |mem| >= 12 && mem[BaseLen(mem)] == DOT
    ensures CStr(Decoded(Encoded(mem)) + [0]) == CStr(mem) <==> Storable(mem)
  {
    hide *;
    GivenBack(mem);
    NameParts(mem);
    DottedParts(mem);
    DottedRoundTrip(mem, BaseLen(mem), Strip(mem[..BaseLen(mem)]), ExtOf(mem), CStr(mem));
  }

  lemma DottedParts(mem: seq<Byte>)
    requires |mem| >= 12 && mem[BaseLen(mem)] == DOT
    ensures var b := BaseLen(mem);
            && ExtOf(mem) == mem[b + 1..b + 4] && ExtOf(mem)[0] == mem[b + 1]
            && (Storable(mem) <==> (b > 0 ==> mem[b - 1] != SPACE) && mem[b + 1] != SPACE && |CStr(mem)| <= b + 4)
  {
    hide BaseLen, CStr;
  }

  lemma RoundTripLong(mem: seq<Byte>)
    requires |mem| >= 12 && mem[BaseLen(mem)] != DOT && !(BaseLen(mem) < 8 && mem[BaseLen(mem)] == 0)
    ensures CStr(Decoded(Encoded(mem)) + [0]) == CStr(mem) <==> Storable(mem)
  {
    hide *;
    GivenBack(mem);
    NameParts(mem);
    LongParts(mem);
    LongRoundTrip(mem, Strip(mem[..BaseLen(mem)]), ExtOf(mem), CStr(mem));
  }

  lemma LongParts(mem: seq<Byte>)
    requires |mem| >= 12 && mem[BaseLen(mem)] != DOT && !(BaseLen(mem) < 8 && mem[BaseLen(mem)] == 0)
    ensures BaseLen(mem) == 8 && ExtOf(mem) == mem[9..12]
    ensures Storable(mem) <==> mem[7] != SPACE && |CStr(mem)| == 8 && mem[9] == SPACE
  {
    hide BaseLen, CStr;
  }

  lemma ShortRoundTrip(mem: seq<Byte>, b: nat, kept: seq<Byte>, ext: seq<Byte>, name: seq<Byte>)
    requires |mem| >= 12 && b < 8 && mem[b] == 0 && kept == Strip(mem[..b]) && |ext| == 3 && ext[0] == SPACE
    requires name == mem[..b] + CStr(mem[b..])
    ensures Shown(kept, ext) == name <==> (b > 0 ==> mem[b - 1] != SPACE)
  {
    hide Strip, CStr;
    CStrFirstZero(mem[b..]);
    assert name == mem[..b] && Shown(kept, ext) == kept;
    if b > 0 && mem[b - 1] == SPACE { assert kept != mem[..b]; }
  }

  lemma DottedRoundTrip(mem: seq<Byte>, b: nat, kept: seq<Byte>, ext: seq<Byte>, name: seq<Byte>)
    requires |mem| >= 12 && b <= 8 && mem[b] == DOT && kept == Strip(mem[..b]) && ext == mem[b + 1..b + 4]
    requires name == mem[..b] + CStr(mem[b..])
    ensures Shown(kept, ext) == name <==> (b > 0 ==> mem[b - 1] != SPACE) && mem[b + 1] != SPACE && |name| <= b + 4
  {
    hide CStr, Strip;
    ExtensionRoundTrip(mem, b);
    var e, f := CStr(ext + [0]), CStr(mem[b + 1..]);
    assert name == mem[..b] + ([DOT] + f);
    assert ext[0] == mem[b + 1];
    var got := kept + (if ext[0] == SPACE then [] else [DOT] + e);
    if mem[b + 1] != SPACE {
      assert got[|kept|] == DOT;
      if |kept| < b {
        assert name[|kept|] == mem[|kept|] == SPACE;
      } else {
        assert got[b + 1..] == e && name[b + 1..] == f;
      }
    }
  }

  lemma LongRoundTrip(mem: seq<Byte>, kept: seq<Byte>, ext: seq<Byte>, name: seq<Byte>)
    requires |mem| >= 12 && mem[8] != DOT && kept == Strip(mem[..8]) && ext == mem[9..12] && name == mem[..8] + CStr(mem[8..])
    ensures Shown(kept, ext) == name <==> mem[7] != SPACE && |name| == 8 && mem[9] == SPACE
  {
    hide CStr, Strip;
    var tail := CStr(mem[8..]);
    var got := Shown(kept, ext);
    assert ext[0] == mem[9];
    if mem[9] != SPACE {
      assert got[|kept|] == DOT;
      if |kept| < 8 {
        assert name[|kept|] == mem[|kept|] == SPACE;
      } else if |tail| > 0 {
        assert name[8] == tail[0] == mem[8];
      }
    }
  }

  lemma ExtensionRoundTrip(mem: seq<Byte>, b: nat)
    requires b + 4 <= |mem| && mem[b] == DOT
    ensures CStr(mem[b..]) == [DOT] + CStr(mem[b + 1..])
    ensures CStr(mem[b + 1..b + 4] + [0]) == CStr(mem[b + 1..]) <==> |CStr(mem[b + 1..])| <= 3
  {
    var rest := mem[b + 1..];
    assert mem[b..] == [DOT] + rest;
    CStrAppend([DOT], rest);
    var c := CStr(rest);
    CStrStops(rest[..3] + [0]);
    assert rest[..3] == mem[b + 1..b + 4];
    if |c| <= 3 {
      assert rest[..3] + [0] == c + (rest[|c|..3] + [0]);
      CStrAppend(c, rest[|c|..3] + [0]);
    }
  }

  /** Eight characters without extension, and zeros behind the NUL: the name comes back with a "." it
      did not have, because the code copies what follows the NUL as an extension. */
  lemma EightCharacters(name: seq<Byte>)
    requires |name| == 8 && 0 !in name && DOT !in name && name[7] != SPACE
    ensures CStr(name + Zeros(4)) == name && CStr(Decoded(Encoded(name + Zeros(4))) + [0]) == name + [DOT]
  {
    hide CStr, BaseLen, Encoded, Decoded;
    var mem := name + Zeros(4);
    CStrAppend(name, Zeros(4));
    CStrStops([0]);
    GivenBack(mem);
    assert BaseLen(mem) == 8 && mem[..8] == name;
    assert ExtOf(mem) == mem[9..12] == Zeros(3);
    assert Zeros(3) + [0] == Zeros(4);
    CStrZero();
    assert Strip(name) == name;
  }

  lemma CStrZero()
    ensures CStr(Zeros(4)) == []
  {}

  /** Nothing but spaces before the first "." or NUL, and no extension. */
  predicate BlankName(mem: seq<Byte>)
    requires |mem| >= 12
  {
    (forall k :: 0 <= k < BaseLen(mem) ==> mem[k] == SPACE) && ExtOf(mem)[0] == SPACE
  }

  lemma GivenBackEmpty(mem: seq<Byte>)
    requires |mem| >= 12
    ensures CStr(Decoded(Encoded(mem)) + [0]) == [] <==> BlankName(mem)
  {
    hide CStr, BaseLen, Encoded, Decoded, ExtOf, Strip;
    GivenBack(mem);
    var base := mem[..BaseLen(mem)];
    assert Strip(base) == [] <==> forall k :: 0 <= k < |base| ==> base[k] == SPACE;
  }

  /** The 11 stored bytes: the base, spaces (0x20) up to eight, and the three bytes after the "." (0x2E), or
      spaces if a NUL comes first. */
  lemma EncodedBytes(mem: seq<Byte>, b: nat)
    requires |mem| >= 12 && b <= 8 && (forall k :: 0 <= k < b ==> mem[k] != 0 && mem[k] != 0x2E)
    requires b < 8 ==> mem[b] == 0 || mem[b] == 0x2E
    ensures forall k :: 0 <= k < b ==> Encoded(mem)[k] == mem[k]
    ensures forall k :: b <= k < 8 ==> Encoded(mem)[k] == 0x20
    ensures forall k :: 8 <= k < 11 ==> Encoded(mem)[k] == if b < 8 && mem[b] == 0 then 0x20 else mem[b + k - 7]
  {
    hide BaseLen;
    assert BaseLen(mem) == b;
  }

  /** "README.TXT" is stored as "README  TXT" and "AB" as "AB         ", and both read back. */
  lemma StoredNames()
    ensures var mem := [0x52, 0x45, 0x41, 0x44, 0x4D, 0x45, 0x2E, 0x54, 0x58, 0x54, 0, 0];
            && Encoded(mem) == [0x52, 0x45, 0x41, 0x44, 0x4D, 0x45, 0x20, 0x20, 0x54, 0x58, 0x54]
            && CStr(Decoded(Encoded(mem)) + [0]) == [0x52, 0x45, 0x41, 0x44, 0x4D, 0x45, 0x2E, 0x54, 0x58, 0x54]
    ensures Encoded([0x41, 0x42] + Zeros(10)) == [0x41, 0x42, 0x20, 0x20, 0x20, 0x20, 0x20, 0x20, 0x20, 0x20, 0x20]
  {
    hide Encoded, Decoded, CStr, BaseLen, Strip;
    var mem := [0x52, 0x45, 0x41, 0x44, 0x4D, 0x45, 0x2E, 0x54, 0x58, 0x54, 0, 0];
    EncodedBytes(mem, 6);
    EncodedBytes([0x41, 0x42] + Zeros(10), 2);
    assert mem == mem[..10] + [0, 0];
    CStrAppend(mem[..10], [0, 0]);
    CStrFirstZero([0, 0]);
    assert BaseLen(mem) == 6;
    assert Storable(mem);
    NameRoundTrip(mem);
  }

  lemma CStrFirstZero(m: seq<Byte>)
    requires |m| > 0 && m[0] == 0
    ensures CStr(m) == []
  {}

  /** On storable names the encoding is injective. */
  lemma NamesInjective(m: seq<Byte>, m': seq<Byte>)
    requires |m| >= 12 && |m'| >= 12 && Storable(m) && Storable(m') && Encoded(m) == Encoded(m')
    ensures CStr(m) == CStr(m')
  {
    NameRoundTrip(m);
    NameRoundTrip(m');
  }
}
