/** _build/mkbootdisk.c without a partition: the boot disk image. */
module BootImage {
  import opened Bytes

  /** A file to append, or "@n": skip to sector n. */
  datatype Arg = File(bytes: seq<Byte>) | Skip(sector: nat)

  // ----- The layout

  /** Zeros that complete the last sector. */
  function Padding(n: nat): (r: seq<Byte>)
    ensures (n + |r|) % 512 == 0 && |r| < 512 && forall i :: 0 <= i < |r| ==> r[i] == 0
  {
    Zeros((512 - n % 512) % 512)
  }

  function BootSector(boot: seq<Byte>): (r: seq<Byte>)
    requires |boot| <= 510
    ensures |r| == 512 && r[..|boot|] == boot && r[510] == 0x55 && r[511] == 0xAA
    ensures forall i :: |boot| <= i < 510 ==> r[i] == 0
  {
    boot + Zeros(510 - |boot|) + [0x55, 0xAA]
  }

  lemma WholeSectors(a: nat, b: nat)
    requires a % 512 == 0 && b % 512 == 0
    ensures (a + b) % 512 == 0
  {}

  lemma SkipFits(a: nat, n: nat)
    requires a % 512 == 0 && a / 512 <= n
    ensures a <= 512 * n && (a + (512 * n - a)) % 512 == 0
  {}

  /** How the program computes the padding. */
  lemma PaddingIs(n: nat)
    ensures |Padding(n)| == if n % 512 == 0 then 0 else 512 - n % 512
    ensures 512 * ((n + |Padding(n)|) / 512) == n + |Padding(n)|
  {}

  /** `done` followed by what the arguments add; `None` if a skip leads backwards. */
  function Layout(done: seq<Byte>, args: seq<Arg>): (r: Option<seq<Byte>>)
    requires |done| % 512 == 0
    ensures r.Some? ==> |r.value| % 512 == 0 && done <= r.value
    decreases |args|
  {
    if |args| == 0 then Some(done)
    else
      match args[0]
      case File(b) => WholeSectors(|done|, |b| + |Padding(|b|)|); Layout(done + b + Padding(|b|), args[1..])
      case Skip(n) => if |done| / 512 > n then None else SkipFits(|done|, n); Layout(done + Zeros(512 * n - |done|), args[1..])
  }

  /** Arguments one after the other. */
  lemma {:induction false} LayoutThen(done: seq<Byte>, pre: seq<Arg>, post: seq<Arg>)
    requires |done| % 512 == 0
    ensures Layout(done, pre + post) == match Layout(done, pre) case None => None case Some(p) => Layout(p, post)
    decreases |pre|
  {
    if |pre| == 0 {
      assert pre + post == post;
    } else {
      assert (pre + post)[0] == pre[0] && (pre + post)[1..] == pre[1..] + post;
      match pre[0]
      case File(b) =>
        WholeSectors(|done|, |b| + |Padding(|b|)|);
        LayoutThen(done + b + Padding(|b|), pre[1..], post);
      case Skip(n) =>
        if |done| / 512 <= n {
          SkipFits(|done|, n);
          LayoutThen(done + Zeros(512 * n - |done|), pre[1..], post);
        }
    }
  }

  /** A file lies where the arguments before it end, with zeros up to a whole sector behind it. */
  lemma FileAt(done: seq<Byte>, pre: seq<Arg>, b: seq<Byte>, post: seq<Arg>)
    requires |done| % 512 == 0 && Layout(done, pre + [File(b)] + post).Some?
    ensures Layout(done, pre).Some?
    ensures var at, all := |Layout(done, pre).value|, Layout(done, pre + [File(b)] + post).value;
            && at + |b| <= |all| && all[at..at + |b|] == b
            && (forall i :: at + |b| <= i < |all| && i < at + (|b| + 511) / 512 * 512 ==> all[i] == 0)
            && at + (|b| + 511) / 512 * 512 <= |all|
  {
    hide Padding;
    hide Layout;
    LayoutThen(done, pre, [File(b)] + post);
    assert pre + [File(b)] + post == pre + ([File(b)] + post);
    var p := Layout(done, pre).value;
    LayoutFile(p, b, post);
    var next := p + b + Padding(|b|);
    var all := Layout(next, post).value;
    assert next <= all;
    PaddedSize(|b|);
    assert all[|p|..|p| + |b|] == next[|p|..|p| + |b|] == b;
    forall i | |p| + |b| <= i < |next| ensures all[i] == 0 { assert all[i] == next[i]; }
  }

  lemma LayoutFile(p: seq<Byte>, b: seq<Byte>, post: seq<Arg>)
    requires |p| % 512 == 0
    ensures |p + b + Padding(|b|)| % 512 == 0 && Layout(p, [File(b)] + post) == Layout(p + b + Padding(|b|), post)
  {
    hide Padding;
    WholeSectors(|p|, |b| + |Padding(|b|)|);
    assert ([File(b)] + post)[0] == File(b) && ([File(b)] + post)[1..] == post;
  }

  lemma PaddedSize(n: nat)
    ensures n + |Padding(n)| == (n + 511) / 512 * 512
  {}

  /** "@n" brings the image to sector n exactly, with zeros, or fails if it is there already. */
  lemma SkipAt(done: seq<Byte>, pre: seq<Arg>, n: nat)
    requires |done| % 512 == 0 && Layout(done, pre).Some?
    ensures var p, r := Layout(done, pre).value, Layout(done, pre + [Skip(n)]);
            && (r.Some? <==> |p| <= 512 * n)
            && (r.Some? ==> |r.value| == 512 * n && p <= r.value && forall i :: |p| <= i < 512 * n ==> r.value[i] == 0)
  {
    LayoutThen(done, pre, [Skip(n)]);
    var p := Layout(done, pre).value;
    assert [Skip(n)][1..] == [];
    if |p| / 512 <= n { SkipFits(|p|, n); }
  }

  function Image(boot: seq<Byte>, args: seq<Arg>): Option<seq<Byte>> {
    if |boot| > 510 then None
    else
      match Layout(BootSector(boot), args)
      case None => None
      case Some(r) => Some(if |r| < 1024 * 512 then r + Zeros(1024 * 512 - |r|) else r)
  }

  /** Whole sectors, at least 1024 of them; the signature; and the first file from sector 1 on. */
  lemma KernelInImage(boot: seq<Byte>, kernel: seq<Byte>, args: seq<Arg>)
    requires Image(boot, [File(kernel)] + args).Some?
    ensures var image := Image(boot, [File(kernel)] + args).value;
            && |image| % 512 == 0 && |image| >= 1024 * 512
            && image[510] == 0x55 && image[511] == 0xAA && image[..|boot|] == boot
            && 512 + |kernel| <= |image| && image[512..512 + |kernel|] == kernel
  {
    var s, all := BootSector(boot), [File(kernel)] + args;
    var first := s + kernel + Padding(|kernel|);
    assert all[0] == File(kernel) && all[1..] == args;
    assert Layout(s, all) == Layout(first, args);
    var r := Layout(first, args).value;
    var image := Image(boot, all).value;
    assert r <= image && first <= image;
    assert image[512..512 + |kernel|] == first[512..512 + |kernel|] == kernel;
    assert image[..|boot|] == first[..|boot|] == s[..|boot|];
  }

  /** What comes after the arguments: zeros up to 1024 sectors, and nothing if there are as many already. A boot
      block over 510 bytes or a refused skip gives no image. */
  lemma ImageEnd(boot: seq<Byte>, args: seq<Arg>)
    ensures Image(boot, args).Some? <==> |boot| <= 510 && Layout(BootSector(boot), args).Some?
    ensures Image(boot, args).Some? ==>
              var r, all := Layout(BootSector(boot), args).value, Image(boot, args).value;
              && r <= all && |all| == (if |r| < 0x8_0000 then 0x8_0000 else |r|)
              && forall i :: |r| <= i < |all| ==> all[i] == 0
  {}

  // ----- The program

  /** `write` may take fewer bytes than asked for. */
  method DiskWrite(out: seq<Byte>, data: seq<Byte>) returns (r: seq<Byte>)
    ensures r == out + data
  {
    r := out;
    var done := 0;
    while done < |data|
      invariant 0 <= done <= |data| && r == out + data[..done]
    {
      var w :| 1 <= w <= |data| - done;
      r := r + data[done..done + w];
      assert data[..done] + data[done..done + w] == data[..done + w];
      done := done + w;
    }
  }

  /** Appends `n` zero sectors. */
  method WriteZeroSectors(out: seq<Byte>, n: nat) returns (r: seq<Byte>)
    ensures r == out + Zeros(512 * n)
  {
    r := out;
    for i := 0 to n
      invariant r == out + Zeros(512 * i)
    {
      r := DiskWrite(r, Zeros(512));
      assert Zeros(512 * i) + Zeros(512) == Zeros(512 * (i + 1));
    }
  }

  /** Copies a file in blocks of 4096 bytes and completes its last sector. */
  method WriteFile(out: seq<Byte>, file: seq<Byte>) returns (r: seq<Byte>, sectors: nat)
    ensures r == out + file + Padding(|file|) && 512 * sectors == |file| + |Padding(|file|)|
  {
    hide Padding;
    PaddingIs(|file|);
    r := out;
    var pos := 0;
    while pos < |file|
      invariant 0 <= pos <= |file| && r == out + file[..pos]
    {
      var n := Min(4096, |file| - pos);
      r := DiskWrite(r, file[pos..pos + n]);
      assert file[..pos] + file[pos..pos + n] == file[..pos + n];
      pos := pos + n;
    }
    assert file[..|file|] == file;
    if pos % 512 != 0 {
      assert Zeros(512 - pos % 512) == Padding(pos);
      r := DiskWrite(r, Zeros(512 - pos % 512));
      pos := pos + (512 - pos % 512);
    } else {
      assert r + Padding(|file|) == r;
    }
    sectors := pos / 512;
  }

  method MakeBootDisk(boot: seq<Byte>, args: seq<Arg>) returns (r: Option<seq<Byte>>)
    ensures r == Image(boot, args)
  {
    var n := Min(4096, |boot|);
    if n > 510 {
      return None;
    }
    var buf := boot + Zeros(510 - n) + [0x55, 0xAA];
    var out := DiskWrite([], buf);
    assert [] + buf == buf;
    var nsectors: nat := 1;
    for i := 0 to |args|
      invariant |out| == 512 * nsectors
      invariant Layout(BootSector(boot), args) == Layout(out, args[i..])
    {
      assert args[i..][0] == args[i] && args[i..][1..] == args[i + 1..];
      match args[i] {
        case Skip(sector) =>
          if nsectors > sector {
            return None;
          }
          out := WriteZeroSectors(out, sector - nsectors);
          nsectors := sector;
        case File(bytes) =>
          var sectors;
          out, sectors := WriteFile(out, bytes);
          nsectors := nsectors + sectors;
      }
    }
    if nsectors < 1024 {
      out := WriteZeroSectors(out, 1024 - nsectors);
    }
    r := Some(out);
  }
}
