/**
The firmware tail tools addtail and add_odm_data: a null profile is appended to an image file
and later overwritten by a real profile that a picture and a settings file follow.

`unsigned long` has 32 bits and the host is little-endian.  fread may return any count up to
what is left, as a schedule of offered counts says; opening files, malloc and fwrite succeed.
*/
module TailTools {
  import opened Bits
  import Endian

  const MAX_STRING: nat := 12
  const PROFILE_SIZE: nat := 20
  const MIN_BUF_SIZE: nat := 4096
  const ULONG_RANGE: nat := 0x1_0000_0000
  const LONG_RANGE: nat := 0x8000_0000

  /** "HDR0" and "HDR1". */
  const IMAGE_HEADER: seq<byte> := [0x48, 0x44, 0x52, 0x30]
  const PROFILE_HEADER: seq<byte> := [0x48, 0x44, 0x52, 0x31]

  type Bytes = seq<byte>

  function Repeat(b: byte, n: nat): (r: Bytes)
    ensures |r| == n && forall i :: 0 <= i < n ==> r[i] == b
  {
    if n == 0 then [] else Repeat(b, n - 1) + [b]
  }

  // ---------------------------------------------------------------- what the tools decide

  predicate HasHeader(d: Bytes, header: Bytes)
    requires |header| == 4
  {
    |d| >= 8 && d[..4] == header
  }

  /** The image length that the header records. */
  function ImageLen(d: Bytes): nat
    requires |d| >= 8
  {
    Endian.Ltoh32Ua(d, 4)
  }

  /** The guard of add_odm_data: an image with no profile behind it yet. */
  predicate Accepts(d: Bytes) {
    HasHeader(d, IMAGE_HEADER) && |d| <= (ImageLen(d) + 20) % ULONG_RANGE
  }

  /** Where the profile is written; the seek before the start of a short file fails. */
  function TailPos(d: Bytes): nat { if |d| >= 20 then |d| - 20 else |d| }

  /** The product id cut or padded with spaces to 12 bytes. */
  function PaddedId(id: Bytes): (r: Bytes)
    ensures |r| == MAX_STRING
  {
    if |id| >= MAX_STRING then id[..MAX_STRING] else id + Repeat(0x20, MAX_STRING - |id|)
  }

  function Le32(v: nat): (r: Bytes)
    requires v < ULONG_RANGE
    ensures |r| == 4
  {
    [v % 256, v / 256 % 256, v / 0x1_0000 % 256, v / 0x100_0000 % 256]
  }

  function Profile(id: Bytes, piclen: nat, settinglen: nat): (r: Bytes)
    requires piclen < ULONG_RANGE && settinglen < ULONG_RANGE
    ensures |r| == PROFILE_SIZE
  {
    PaddedId(id) + Le32(piclen) + Le32(settinglen)
  }

  /** The file after an accepted add_odm_data. */
  function Profiled(d: Bytes, pic: Bytes, setting: Bytes, id: Bytes): Bytes
    requires |pic| < ULONG_RANGE && |setting| < ULONG_RANGE
  {
    d[..TailPos(d)] + Profile(id, |pic|, |setting|) + pic + setting
  }

  lemma Le32Loads(v: nat, before: Bytes, after: Bytes)
    requires v < ULONG_RANGE
    ensures Endian.Ltoh32Ua(before + Le32(v) + after, |before|) == v
  {
    var b, o := before + Le32(v) + after, |before|;
    assert b[o] == v % 256 && b[o + 1] == v / 256 % 256;
    assert b[o + 2] == v / 0x1_0000 % 256 && b[o + 3] == v / 0x100_0000 % 256;
    assert v / 0x100_0000 % 256 == v / 0x100_0000 by { Endian.Word32Splits(v); ModIdentity(v / 0x100_0000, 256); }
    Endian.LoadsAsWords(b, o);
    Endian.Word32Splits(v);
  }

  lemma Le32ByLoad(b: Bytes, o: nat)
    requires o + 4 <= |b|
    ensures Endian.Ltoh32Ua(b, o) < ULONG_RANGE && b[o..o + 4] == Le32(Endian.Ltoh32Ua(b, o))
  {
    Endian.LoadsAsWords(b, o);
    Le32OfWord(b[o + 3], b[o + 2], b[o + 1], b[o]);
  }

  lemma Le32OfWord(b3: byte, b2: byte, b1: byte, b0: byte)
    ensures Endian.Word32(b3, b2, b1, b0) < ULONG_RANGE
    ensures Le32(Endian.Word32(b3, b2, b1, b0)) == [b0, b1, b2, b3]
  {
    Endian.Word32Bytes(b3, b2, b1, b0);
  }

  /** A header is its four bytes, on a file of at least eight. */
  lemma HasHeaderExact(d: Bytes, header: Bytes)
    requires |header| == 4
    ensures HasHeader(d, header) <==>
            |d| >= 8 && d[0] == header[0] && d[1] == header[1] && d[2] == header[2] && d[3] == header[3]
  {
  }

  /** The guard on the bytes: "HDR0", and at most 20 bytes more than the recorded length, the sum
      taken in 32 bits. */
  lemma AcceptsExact(d: Bytes)
    ensures Accepts(d) <==>
      && |d| >= 8 && d[0] == 0x48 && d[1] == 0x44 && d[2] == 0x52 && d[3] == 0x30
      && |d| <= (LeNumber(d[4], d[5], d[6], d[7]) + 20) % 0x1_0000_0000
  {
    HasHeaderExact(d, IMAGE_HEADER);
    if |d| >= 8 { Endian.LoadsExact(d, 4); }
  }

  /** The value of four bytes, least significant first. */
  function LeNumber(b0: byte, b1: byte, b2: byte, b3: byte): (v: nat)
    ensures v == b0 as int + 256 * b1 as int + 65536 * b2 as int + 16777216 * b3 as int
  {
    Endian.Word32(b3, b2, b1, b0)
  }

  /** The profile byte by byte: the id cut or padded with spaces, then the two lengths. */
  lemma ProfileExact(id: Bytes, piclen: nat, settinglen: nat)
    requires piclen < ULONG_RANGE && settinglen < ULONG_RANGE
    ensures var p := Profile(id, piclen, settinglen);
      && |p| == 20
      && (forall i :: 0 <= i < 12 ==> p[i] == if i < |id| then id[i] else 0x20)
      && LeNumber(p[12], p[13], p[14], p[15]) == piclen
      && LeNumber(p[16], p[17], p[18], p[19]) == settinglen
  {
    var p := Profile(id, piclen, settinglen);
    assert p[12..16] == Le32(piclen) && p[16..20] == Le32(settinglen);
    Le32IsLeNumber(piclen);
    Le32IsLeNumber(settinglen);
    assert p[12] == p[12..16][0] && p[13] == p[12..16][1] && p[14] == p[12..16][2] && p[15] == p[12..16][3];
    assert p[16] == p[16..20][0] && p[17] == p[16..20][1] && p[18] == p[16..20][2] && p[19] == p[16..20][3];
  }

  lemma Le32IsLeNumber(v: nat)
    requires v < ULONG_RANGE
    ensures var b := Le32(v); LeNumber(b[0], b[1], b[2], b[3]) == v
  {
    assert v / 0x100_0000 % 256 == v / 0x100_0000 by { Endian.Word32Splits(v); ModIdentity(v / 0x100_0000, 256); }
    Endian.Word32Splits(v);
  }

  /** The file after an accepted run: everything but the last 20 bytes, or all of a shorter file,
      then the profile, the picture and the settings. */
  lemma ProfiledExact(d: Bytes, pic: Bytes, setting: Bytes, id: Bytes)
    requires |pic| < ULONG_RANGE && |setting| < ULONG_RANGE
    ensures var r, at := Profiled(d, pic, setting, id), if |d| >= 20 then |d| - 20 else |d|;
      && |r| == at + 20 + |pic| + |setting|
      && r[..at] == d[..at]
      && (forall i :: 0 <= i < 12 ==> r[at + i] == if i < |id| then id[i] else 0x20)
      && LeNumber(r[at + 12], r[at + 13], r[at + 14], r[at + 15]) == |pic|
      && LeNumber(r[at + 16], r[at + 17], r[at + 18], r[at + 19]) == |setting|
      && r[at + 20..at + 20 + |pic|] == pic
      && r[at + 20 + |pic|..] == setting
  {
    var p := Profile(id, |pic|, |setting|);
    var r, at := Profiled(d, pic, setting, id), TailPos(d);
    ProfileExact(id, |pic|, |setting|);
    forall i | 0 <= i < 20 ensures r[at + i] == p[i] { }
  }

  // ---------------------------------------------------------------- files

  /** An open file: its contents and the read/write position. */
  class File {
    var data: Bytes
    var pos: nat

    constructor (d: Bytes)
      ensures data == d && pos == 0
    {
      data, pos := d, 0;
    }

    /** fread of at most `n` bytes when the system offers `offered` at once. */
    method Read(n: nat, offered: nat) returns (got: Bytes)
      requires pos <= |data|
      modifies this`pos
      ensures |got| == Min(Min(n, offered), |data| - old(pos))
      ensures pos == old(pos) + |got| <= |data| && got == data[old(pos)..pos]
    {
      var count := Min(Min(n, offered), |data| - pos);
      got := data[pos..pos + count];
      pos := pos + count;
    }

    /** fwrite at the position, extending the file when it runs past the end. */
    method Write(bytes: Bytes)
      requires pos <= |data|
      modifies this
      ensures pos == old(pos) + |bytes|
      ensures data == old(data)[..old(pos)] + bytes + old(data)[Min(pos, |old(data)|)..]
    {
      var end := pos + |bytes|;
      data := data[..pos] + bytes + data[Min(end, |data|)..];
      pos := end;
    }

    method SeekEnd()
      modifies this`pos
      ensures pos == |data|
    {
      pos := |data|;
    }

    /** fseek from the start; a negative offset fails and leaves the position. */
    method SeekSet(offset: int)
      modifies this`pos
      ensures pos == if offset < 0 then old(pos) else offset
    {
      if offset >= 0 { pos := offset; }
    }
  }

  function Min(a: nat, b: nat): nat { if a <= b then a else b }

  // ---------------------------------------------------------------- addtail

  method AddTail(fp: File)
    requires fp.pos == 0
    modifies fp
    ensures fp.data == After(old(fp.data), Tail)
    ensures |fp.data| == |old(fp.data)| + 20 && fp.data[..|old(fp.data)|] == old(fp.data)
    ensures forall i :: |old(fp.data)| <= i < |fp.data| ==> fp.data[i] == 0
  {
    fp.SeekEnd();
    var profile := Repeat(0, PROFILE_SIZE);
    fp.Write(profile);
  }

  // ---------------------------------------------------------------- add_odm_data

  datatype Outcome = AlreadyAppended | InvalidImage | InvalidSetting | Appended

  /** The product id field: spaces, then the id's bytes over them. */
  method FillProductId(profile: array<byte>, id: Bytes)
    requires profile.Length == PROFILE_SIZE
    modifies profile
    ensures profile[..MAX_STRING] == PaddedId(id)
  {
    for i := 0 to MAX_STRING
      invariant forall j :: 0 <= j < i ==> profile[j] == 0x20
    {
      profile[i] := 0x20;
    }
    var n := if MAX_STRING > |id| then |id| else MAX_STRING;
    for i := 0 to n
      invariant forall j :: 0 <= j < i ==> profile[j] == id[j]
      invariant forall j :: i <= j < MAX_STRING ==> profile[j] == 0x20
    {
      profile[i] := id[i];
    }
  }

  /** The profile structure, built in place. */
  method BuildProfile(id: Bytes, plen: nat, slen: nat) returns (profile: array<byte>)
    requires plen < ULONG_RANGE && slen < ULONG_RANGE
    ensures fresh(profile) && profile[..] == Profile(id, plen, slen)
    ensures var p := profile[..];
      && |p| == 20
      && (forall i :: 0 <= i < 12 ==> p[i] == if i < |id| then id[i] else 0x20)
      && LeNumber(p[12], p[13], p[14], p[15]) == plen
      && LeNumber(p[16], p[17], p[18], p[19]) == slen
  {
    profile := new byte[PROFILE_SIZE](_ => 0);
    FillProductId(profile, id);
    Endian.Htol32UaStore(plen, profile, MAX_STRING);
    ghost var p := profile[..];
    Endian.Htol32UaStore(slen, profile, MAX_STRING + 4);
    LoadsAgree(p, profile[..], MAX_STRING);
    ProfileByParts(profile[..], id, plen, slen);
    ProfileExact(id, plen, slen);
  }

  lemma ProfileByParts(p: Bytes, id: Bytes, plen: nat, slen: nat)
    requires plen < ULONG_RANGE && slen < ULONG_RANGE && |p| == PROFILE_SIZE
    requires p[..MAX_STRING] == PaddedId(id)
    requires Endian.Ltoh32Ua(p, MAX_STRING) == plen && Endian.Ltoh32Ua(p, MAX_STRING + 4) == slen
    ensures p == Profile(id, plen, slen)
  {
    Le32ByLoad(p, MAX_STRING);
    Le32ByLoad(p, MAX_STRING + 4);
    assert p == p[..MAX_STRING] + p[MAX_STRING..MAX_STRING + 4] + p[MAX_STRING + 4..MAX_STRING + 8];
  }

  lemma LoadsAgree(b: Bytes, c: Bytes, o: nat)
    requires o + 4 <= |b| <= |c| && forall j :: o <= j < o + 4 ==> b[j] == c[j]
    ensures Endian.Ltoh32Ua(b, o) == Endian.Ltoh32Ua(c, o)
  {
  }

  /** One copy loop.  `offers` are the counts that successive freads are offered, zero
      included; once they are used up every fread gets what it asks for. */
  method CopyLoop(fp: File, src: File, length: nat, size: nat, offers: seq<nat>)
    requires fp != src && size > 0
    requires fp.pos == |fp.data| && src.pos == 0 && length == |src.data|
    modifies fp, src`pos
    ensures fp.data == old(fp.data) + src.data && fp.pos == |fp.data|
    ensures src.data == old(src.data)
  {
    var left := length;
    var round := 0;
    while left != 0
      invariant 0 <= left <= length && round >= 0
      invariant src.data == old(src.data) && src.pos == length - left
      invariant fp.pos == |fp.data| && fp.data == old(fp.data) + src.data[..src.pos]
      decreases if round < |offers| then |offers| - round else 0, left
    {
      var offered := if round < |offers| then offers[round] else size;
      round := round + 1;
      var buf := src.Read(size, offered);
      var count := |buf|;
      if count == 0 && src.pos == |src.data| {
        break;
      }
      left := left - count;
      fp.Write(buf);
      assert src.data[..src.pos] == src.data[..src.pos - count] + buf;
    }
    assert src.data[..src.pos] == src.data;
  }

  /** The image header check: the recorded length, if the file has the header. */
  method ReadImageHeader(fp: File) returns (ok: bool, imagelen: nat)
    requires fp.pos == 0
    modifies fp`pos
    ensures ok <==> HasHeader(fp.data, IMAGE_HEADER)
    ensures var d := fp.data;
      ok <==> |d| >= 8 && d[0] == 0x48 && d[1] == 0x44 && d[2] == 0x52 && d[3] == 0x30
    ensures ok ==> imagelen == ImageLen(fp.data) == LeNumber(fp.data[4], fp.data[5], fp.data[6], fp.data[7])
  {
    HasHeaderExact(fp.data, IMAGE_HEADER);
    var header := fp.Read(8, 8);
    ok, imagelen := |header| >= 8 && header[..4] == IMAGE_HEADER, 0;
    assert |fp.data| >= 8 ==> header == fp.data[..8] && header[..4] == fp.data[..4];
    if ok {
      imagelen := Endian.Ltoh32Ua(header, 4);
      Endian.LoadsExact(fp.data, 4);
    }
  }

  /** Lines 142-187 of add_odm_data.c: the profile over the tail, then both payloads. */
  method WriteProfile(fp: File, pfp: File, sfp: File, id: Bytes, plen: nat, slen: nat, bufsiz: nat,
                      picOffers: seq<nat>, settingOffers: seq<nat>)
    requires fp != pfp && fp != sfp && pfp != sfp
    requires fp.pos == TailPos(fp.data) && plen == |pfp.data| < LONG_RANGE && slen == |sfp.data| < LONG_RANGE
    modifies fp, pfp`pos, sfp`pos
    ensures fp.data == Profiled(old(fp.data), pfp.data, sfp.data, id)
  {
    var profile := BuildProfile(id, plen, slen);
    fp.Write(profile[..]);
    var size := if bufsiz < MIN_BUF_SIZE then MIN_BUF_SIZE else bufsiz;
    pfp.SeekSet(0);
    CopyLoop(fp, pfp, plen, size, picOffers);
    sfp.SeekSet(0);
    CopyLoop(fp, sfp, slen, size, settingOffers);
  }

  /** Lines 71-140 of add_odm_data.c: the checks.  Nothing is written; an accepted image is left
      positioned where the profile goes. */
  method CheckFiles(fp: File, pfp: File, sfp: File) returns (r: Outcome, plen: nat, slen: nat)
    requires fp != pfp && fp != sfp && pfp != sfp
    requires fp.pos == 0 && sfp.pos == 0
    modifies fp`pos, pfp`pos, sfp`pos
    ensures var d := fp.data;
      r.InvalidImage? <==> !(|d| >= 8 && d[0] == 0x48 && d[1] == 0x44 && d[2] == 0x52 && d[3] == 0x30)
    ensures var d := fp.data;
      !r.InvalidImage? ==>
      (r.AlreadyAppended? <==> |d| > (LeNumber(d[4], d[5], d[6], d[7]) + 20) % 0x1_0000_0000)
    ensures var t := sfp.data;
      !r.InvalidImage? && !r.AlreadyAppended? ==>
      (r.Appended? <==> |t| >= 8 && t[0] == 0x48 && t[1] == 0x44 && t[2] == 0x52 && t[3] == 0x31)
    ensures r.Appended? ==> fp.pos == TailPos(fp.data) && plen == |pfp.data| && slen == |sfp.data|
  {
    plen, slen := 0, 0;
    var ok, imagelen := ReadImageHeader(fp);
    if !ok {
      return InvalidImage, plen, slen;
    }
    fp.SeekEnd();
    var flen := fp.pos;
    if flen > (imagelen + 20) % ULONG_RANGE {
      return AlreadyAppended, plen, slen;
    }
    fp.SeekSet(flen - 20);
    pfp.SeekEnd();
    plen := pfp.pos;
    var setting := sfp.Read(8, 8);
    assert |sfp.data| >= 8 ==> setting == sfp.data[..8];
    if !(|setting| >= 8 && setting[..4] == PROFILE_HEADER) {
      HasHeaderExact(setting, PROFILE_HEADER);
      return InvalidSetting, plen, slen;
    }
    HasHeaderExact(setting, PROFILE_HEADER);
    sfp.SeekEnd();
    slen := sfp.pos;
    r := Appended;
  }

  /** add_odm_data on open files positioned at their start; `id` is a C string. */
  method AddOdmData(fp: File, pfp: File, sfp: File, id: Bytes, bufsiz: nat,
                    picOffers: seq<nat>, settingOffers: seq<nat>)
    returns (r: Outcome)
    requires fp != pfp && fp != sfp && pfp != sfp
    requires fp.pos == 0 && pfp.pos == 0 && sfp.pos == 0
    requires |fp.data| < LONG_RANGE && |pfp.data| < LONG_RANGE && |sfp.data| < LONG_RANGE
    requires 0 !in id
    modifies fp, pfp`pos, sfp`pos
    ensures var d := old(fp.data);
      r.InvalidImage? <==> !(|d| >= 8 && d[0] == 0x48 && d[1] == 0x44 && d[2] == 0x52 && d[3] == 0x30)
    ensures var d := old(fp.data);
      !r.InvalidImage? ==>
      (r.AlreadyAppended? <==> |d| > (LeNumber(d[4], d[5], d[6], d[7]) + 20) % 0x1_0000_0000)
    ensures var t := sfp.data;
      !r.InvalidImage? && !r.AlreadyAppended? ==>
      (r.Appended? <==> |t| >= 8 && t[0] == 0x48 && t[1] == 0x44 && t[2] == 0x52 && t[3] == 0x31)
    ensures !r.Appended? ==> fp.data == old(fp.data)
    ensures r.Appended? ==> fp.data == Profiled(old(fp.data), pfp.data, sfp.data, id)
    ensures fp.data == After(old(fp.data), Odm(pfp.data, sfp.data, id))
    ensures pfp.data == old(pfp.data) && sfp.data == old(sfp.data)
  {
    ghost var d, pic, t := fp.data, pfp.data, sfp.data;
    var plen, slen;
    r, plen, slen := CheckFiles(fp, pfp, sfp);
    assert After(d, Odm(pic, t, id)) == (if r.Appended? then Profiled(d, pic, t, id) else d) by {
      AfterOdmExact(d, pic, t, id);
    }
    if r.Appended? {
      WriteProfile(fp, pfp, sfp, id, plen, slen, bufsiz, picOffers, settingOffers);
    }
  }

  // ---------------------------------------------------------------- runs of the two tools

  /** One run of a tool on an image file. */
  datatype ToolRun =
    | Tail
    | Odm(pic: Bytes, setting: Bytes, id: Bytes)

  predicate SmallFiles(run: ToolRun) {
    run.Odm? ==> |run.pic| < LONG_RANGE && |run.setting| < LONG_RANGE
  }

  /** The file after one run; add_odm_data leaves a file it rejects unchanged. */
  function After(d: Bytes, run: ToolRun): Bytes
    requires SmallFiles(run)
  {
    match run
    case Tail => d + Repeat(0, PROFILE_SIZE)
    case Odm(pic, setting, id) =>
      if Accepts(d) && HasHeader(setting, PROFILE_HEADER) then Profiled(d, pic, setting, id) else d
  }

  /** One add_odm_data on the bytes: the profile is written exactly if the image starts with "HDR0",
      is at most 20 bytes longer than it records, and the settings start with "HDR1"; otherwise
      the file stays as it is. */
  lemma AfterOdmExact(d: Bytes, pic: Bytes, setting: Bytes, id: Bytes)
    requires |pic| < LONG_RANGE && |setting| < LONG_RANGE
    ensures After(d, Odm(pic, setting, id)) ==
      if |d| >= 8 && d[0] == 0x48 && d[1] == 0x44 && d[2] == 0x52 && d[3] == 0x30
         && |d| <= (LeNumber(d[4], d[5], d[6], d[7]) + 20) % 0x1_0000_0000
         && |setting| >= 8
         && setting[0] == 0x48 && setting[1] == 0x44 && setting[2] == 0x52 && setting[3] == 0x31
      then Profiled(d, pic, setting, id)
      else d
  {
    AcceptsExact(d);
    HasHeaderExact(setting, PROFILE_HEADER);
  }

  function AfterAll(d: Bytes, runs: seq<ToolRun>): Bytes
    requires forall k :: 0 <= k < |runs| ==> SmallFiles(runs[k])
    decreases |runs|
  {
    if runs == [] then d else AfterAll(After(d, runs[0]), runs[1..])
  }

  function Tails(runs: seq<ToolRun>): nat {
    if runs == [] then 0 else (if runs[0].Tail? then 1 else 0) + Tails(runs[1..])
  }

  /** An image whose header records its exact length. */
  predicate ExactImage(d: Bytes) {
    HasHeader(d, IMAGE_HEADER) && ImageLen(d) == |d| && |d| + 20 < ULONG_RANGE
  }

  /** `d` extends the image. */
  lemma ExtensionKeepsHeader(image: Bytes, more: Bytes)
    requires ExactImage(image)
    ensures HasHeader(image + more, IMAGE_HEADER) && ImageLen(image + more) == |image|
    ensures Accepts(image + more) <==> |more| <= 20
  {
    var d := image + more;
    assert d[..4] == image[..4];
    LoadsAgree(image, d, 4);
  }

  lemma RepeatConcat(b: byte, m: nat, n: nat)
    ensures Repeat(b, m) + Repeat(b, n) == Repeat(b, m + n)
  {
  }

  /** A run that add_odm_data rejects. */
  predicate Rejects(d: Bytes, run: ToolRun) {
    run.Odm? && !(Accepts(d) && HasHeader(run.setting, PROFILE_HEADER))
  }

  /** Any rejected runs leave any file as it was, with or without an image header. */
  lemma {:induction false} RejectedRunsKeepFile(d: Bytes, runs: seq<ToolRun>)
    requires forall k :: 0 <= k < |runs| ==> SmallFiles(runs[k]) && Rejects(d, runs[k])
    ensures AfterAll(d, runs) == d
    decreases |runs|
  {
    if runs == [] {
    } else {
      assert Rejects(d, runs[0]);
      RejectedRunsKeepFile(d, runs[1..]);
    }
  }

  /** Once more than one profile's worth of bytes follows the image, every further add_odm_data
      is rejected and only addtail changes the file. */
  lemma {:induction false} RejectedForEver(image: Bytes, more: Bytes, runs: seq<ToolRun>)
    requires ExactImage(image) && |more| > 20
    requires forall k :: 0 <= k < |runs| ==> SmallFiles(runs[k])
    ensures AfterAll(image + more, runs) == image + more + Repeat(0, 20 * Tails(runs))
    decreases |runs|
  {
    if runs == [] {
      assert image + more + [] == image + more;
    } else {
      ExtensionKeepsHeader(image, more);
      var rest := runs[1..];
      if runs[0].Tail? {
        var z := Repeat(0, PROFILE_SIZE);
        assert image + more + z == image + (more + z);
        RejectedForEver(image, more + z, rest);
        RepeatConcat(0, 20, 20 * Tails(rest));
        assert image + (more + z) + Repeat(0, 20 * Tails(rest)) == image + more + (z + Repeat(0, 20 * Tails(rest)));
      } else {
        RejectedForEver(image, more, rest);
      }
    }
  }

  /** addtail, then an accepted add_odm_data: image, profile, picture, settings. */
  lemma TailThenProfile(image: Bytes, pic: Bytes, setting: Bytes, id: Bytes)
    requires ExactImage(image) && |pic| < LONG_RANGE && |setting| < LONG_RANGE
    requires HasHeader(setting, PROFILE_HEADER)
    ensures var tailed := After(image, Tail);
      && Accepts(tailed)
      && After(tailed, Odm(pic, setting, id)) == image + (Profile(id, |pic|, |setting|) + pic + setting)
  {
    var z := Repeat(0, PROFILE_SIZE);
    ExtensionKeepsHeader(image, z);
    var t := image + z;
    assert t[..TailPos(t)] == image;
    var p := Profile(id, |pic|, |setting|);
    assert image + p + pic + setting == image + (p + pic + setting);
  }

  /** The first profile stays: whatever runs follow, the file is the image, that profile with its
      picture and settings, and nothing else but the tails that addtail appended. */
  lemma FirstProfileStays(image: Bytes, pic: Bytes, setting: Bytes, id: Bytes, runs: seq<ToolRun>)
    requires ExactImage(image) && |pic| < LONG_RANGE && |setting| < LONG_RANGE
    requires HasHeader(setting, PROFILE_HEADER)
    requires forall k :: 0 <= k < |runs| ==> SmallFiles(runs[k])
    ensures AfterAll(image, [Tail, Odm(pic, setting, id)] + runs) ==
            image + (Profile(id, |pic|, |setting|) + pic + setting) + Repeat(0, 20 * Tails(runs))
  {
    TailThenProfile(image, pic, setting, id);
    TwoStepsThen(image, Tail, Odm(pic, setting, id), runs);
    RejectedForEver(image, Profile(id, |pic|, |setting|) + pic + setting, runs);
  }

  /** After addtail has run twice no profile is ever written. */
  lemma TwoTailsLockOut(image: Bytes, runs: seq<ToolRun>)
    requires ExactImage(image)
    requires forall k :: 0 <= k < |runs| ==> SmallFiles(runs[k])
    ensures AfterAll(image, [Tail, Tail] + runs) == image + Repeat(0, 20 * (Tails(runs) + 2))
  {
    var z := Repeat(0, PROFILE_SIZE);
    TwoStepsThen(image, Tail, Tail, runs);
    ConcatAssociative(image, z, z);
    RejectedForEver(image, z + z, runs);
    RepeatConcat(0, 20, 20);
    RepeatConcat(0, 40, 20 * Tails(runs));
    ConcatAssociative(image, z + z, Repeat(0, 20 * Tails(runs)));
  }

  lemma TwoStepsThen(d: Bytes, first: ToolRun, second: ToolRun, runs: seq<ToolRun>)
    requires SmallFiles(first) && SmallFiles(second) && forall k :: 0 <= k < |runs| ==> SmallFiles(runs[k])
    ensures AfterAll(d, [first, second] + runs) == AfterAll(After(After(d, first), second), runs)
  {
    var all := [first, second] + runs;
    assert all[1..] == [second] + runs && all[1..][1..] == runs;
  }

  lemma ConcatAssociative(a: Bytes, b: Bytes, c: Bytes)
    ensures a + b + c == a + (b + c)
  {
  }

  /** What an accepted add_odm_data makes of an extended image. */
  lemma AcceptedResult(image: Bytes, more: Bytes, pic: Bytes, setting: Bytes, id: Bytes)
    requires ExactImage(image) && |more| <= 20
    requires |pic| < LONG_RANGE && |setting| < LONG_RANGE && HasHeader(setting, PROFILE_HEADER)
    ensures var d := image + more;
            After(d, Odm(pic, setting, id)) ==
            d[..if |d| >= 20 then |d| - 20 else |d|] + (Profile(id, |pic|, |setting|) + pic + setting)
  {
    ExtensionKeepsHeader(image, more);
    var d := image + more;
    var p := Profile(id, |pic|, |setting|);
    assert d[..TailPos(d)] + p + pic + setting == d[..TailPos(d)] + (p + pic + setting);
  }

  /** An accepted add_odm_data leaves the image with profile and payloads right behind it exactly
      when one tail has been appended, or none to an image so short that the seek fails. */
  lemma ProfilePlacement(image: Bytes, more: Bytes, pic: Bytes, setting: Bytes, id: Bytes)
    requires ExactImage(image) && |more| <= 20
    requires |pic| < LONG_RANGE && |setting| < LONG_RANGE && HasHeader(setting, PROFILE_HEADER)
    ensures After(image + more, Odm(pic, setting, id)) == image + (Profile(id, |pic|, |setting|) + pic + setting)
            <==> |more| == 20 || (|more| == 0 && |image| < 20)
  {
    AcceptedResult(image, more, pic, setting, id);
    var d := image + more;
    var payload := Profile(id, |pic|, |setting|) + pic + setting;
    assert |d[..TailPos(d)] + payload| == |image + payload| <==> TailPos(d) == |image|;
    if TailPos(d) == |image| { assert d[..TailPos(d)] == image; }
  }

  /** It keeps the image's own bytes exactly when it writes behind them, or when the bytes it
      overwrites already are the profile's. */
  lemma ImageKeptExact(image: Bytes, more: Bytes, pic: Bytes, setting: Bytes, id: Bytes)
    requires ExactImage(image) && |more| <= 20
    requires |pic| < LONG_RANGE && |setting| < LONG_RANGE && HasHeader(setting, PROFILE_HEADER)
    ensures var at := TailPos(image + more);
      image <= After(image + more, Odm(pic, setting, id))
      <==> at >= |image| || image[at..] == Profile(id, |pic|, |setting|)[..|image| - at]
  {
    AcceptedResult(image, more, pic, setting, id);
    var d := image + more;
    var at := TailPos(d);
    var p := Profile(id, |pic|, |setting|);
    var r := d[..at] + (p + pic + setting);
    if at >= |image| {
      assert r[..|image|] == image;
    } else {
      assert r[..|image|] == image[..at] + p[..|image| - at];
      assert image == image[..at] + image[at..];
      assert image[at..] == p[..|image| - at] <==> r[..|image|] == image by {
        assert r[..|image|][at..] == p[..|image| - at];
      }
    }
  }

  // ---------------------------------------------------------------- reading it back

  /** A payload found through the profile at `at`. */
  function PictureAt(d: Bytes, at: nat): Bytes
    requires at + PROFILE_SIZE <= |d| && at + PROFILE_SIZE + Endian.Ltoh32Ua(d, at + 12) <= |d|
  {
    d[at + PROFILE_SIZE..][..Endian.Ltoh32Ua(d, at + 12)]
  }

  function SettingsAt(d: Bytes, at: nat): Bytes
    requires at + PROFILE_SIZE <= |d|
    requires at + PROFILE_SIZE + Endian.Ltoh32Ua(d, at + 12) + Endian.Ltoh32Ua(d, at + 16) <= |d|
  {
    d[at + PROFILE_SIZE + Endian.Ltoh32Ua(d, at + 12)..][..Endian.Ltoh32Ua(d, at + 16)]
  }

  lemma ProfileLengths(before: Bytes, id: Bytes, plen: nat, slen: nat, after: Bytes)
    requires plen < ULONG_RANGE && slen < ULONG_RANGE
    ensures var d := before + Profile(id, plen, slen) + after;
      && Endian.Ltoh32Ua(d, |before| + 12) == plen
      && Endian.Ltoh32Ua(d, |before| + 16) == slen
      && d[|before|..|before| + 12] == PaddedId(id)
  {
    var d := before + Profile(id, plen, slen) + after;
    var b1, a1 := before + PaddedId(id), Le32(slen) + after;
    assert d == b1 + Le32(plen) + a1;
    Le32Loads(plen, b1, a1);
    var b2 := before + PaddedId(id) + Le32(plen);
    assert d == b2 + Le32(slen) + after;
    Le32Loads(slen, b2, after);
  }

  lemma ReadBack(d: Bytes, at: nat, pic: Bytes, setting: Bytes, tail: Bytes)
    requires at + PROFILE_SIZE + |pic| + |setting| <= |d|
    requires Endian.Ltoh32Ua(d, at + 12) == |pic| && Endian.Ltoh32Ua(d, at + 16) == |setting|
    requires d[at + PROFILE_SIZE..] == pic + setting + tail && d[at + PROFILE_SIZE + |pic|..] == setting + tail
    ensures PictureAt(d, at) == pic && SettingsAt(d, at) == setting
  {
    assert (pic + setting + tail)[..|pic|] == pic;
    assert (setting + tail)[..|setting|] == setting;
  }

  lemma PayloadsBehind(before: Bytes, p: Bytes, pic: Bytes, setting: Bytes, tail: Bytes)
    requires |p| == PROFILE_SIZE
    ensures var d := before + (p + pic + setting) + tail;
      && d == before + p + (pic + setting + tail)
      && d[|before| + PROFILE_SIZE..] == pic + setting + tail
      && d[|before| + PROFILE_SIZE + |pic|..] == setting + tail
      && (forall i :: 0 <= i < PROFILE_SIZE ==> d[|before| + i] == p[i])
  {
    ConcatAssociative(p, pic, setting);
    ConcatAssociative(before, p, pic + setting);
    ConcatAssociative(before + p, pic + setting, tail);
    var d := before + p + (pic + setting + tail);
    assert d[|before| + PROFILE_SIZE..] == pic + setting + tail;
    assert d[|before| + PROFILE_SIZE + |pic|..] == setting + tail;
  }

  /** Picture, settings and product id can be read back from behind the image, using only the
      lengths that the profile records. */
  lemma RoundTrip(image: Bytes, pic: Bytes, setting: Bytes, id: Bytes, tail: Bytes)
    requires |pic| < LONG_RANGE && |setting| < LONG_RANGE
    ensures var d := image + (Profile(id, |pic|, |setting|) + pic + setting) + tail;
      && Endian.Ltoh32Ua(d, |image| + 12) == |pic| && Endian.Ltoh32Ua(d, |image| + 16) == |setting|
      && PictureAt(d, |image|) == pic && SettingsAt(d, |image|) == setting
      && (forall i :: 0 <= i < 12 ==> d[|image| + i] == if i < |id| then id[i] else 0x20)
  {
    var p := Profile(id, |pic|, |setting|);
    var d := image + (p + pic + setting) + tail;
    assert Endian.Ltoh32Ua(d, |image| + 12) == |pic| && Endian.Ltoh32Ua(d, |image| + 16) == |setting| by {
      PayloadsBehind(image, p, pic, setting, tail);
      ProfileLengths(image, id, |pic|, |setting|, pic + setting + tail);
    }
    assert forall i :: 0 <= i < 12 ==> d[|image| + i] == if i < |id| then id[i] else 0x20 by {
      PayloadsBehind(image, p, pic, setting, tail);
      ProfileExact(id, |pic|, |setting|);
    }
    assert d[|image| + PROFILE_SIZE..] == pic + setting + tail
      && d[|image| + PROFILE_SIZE + |pic|..] == setting + tail by {
      PayloadsBehind(image, p, pic, setting, tail);
    }
    ReadBack(d, |image|, pic, setting, tail);
  }
}
