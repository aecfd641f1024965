/** Archive headers in the ustar interchange format (the pax utility, IEEE Std
    1003.1-2001): one that is made can be parsed, and gives back what went in. */
module Ustar {

  import opened Octal
  import opened Options
  import opened Sectors

  const HEADER_SIZE: nat := 512

  const DOT: Byte := 46
  const SLASH: Byte := 47

  /** USTAR_REGULAR and USTAR_DIRECTORY. */
  const REGULAR: Byte := 48
  const DIRECTORY: Byte := 53

  const INT_MAX: int := 0x7FFF_FFFF

  // Where the fields of struct ustar_header are.
  const NAME: nat := 0
  const MODE: nat := 100
  const UID: nat := 108
  const GID: nat := 116
  const SIZE: nat := 124
  const MTIME: nat := 136
  const CHKSUM: nat := 148
  const TYPEFLAG: nat := 156
  const MAGIC: nat := 257
  const VERSION: nat := 263
  const UNAME: nat := 265
  const GNAME: nat := 297
  const PREFIX: nat := 345

  function Ustar0(): (r: seq<Byte>) { [117, 115, 116, 97, 114, 0] }

  function Root(): (r: seq<Byte>) { [114, 111, 111, 116] }

  /** A C string: no null byte inside. */
  ghost predicate IsString(s: seq<Byte>) {
    forall i :: 0 <= i < |s| ==> s[i] != 0
  }

  // Names.

  predicate Antisocial(name: seq<Byte>) {
    || (|name| >= 1 && name[0] == SLASH)
    || (|name| >= 2 && name[..2] == [DOT, SLASH])
    || (|name| >= 3 && name[..3] == [DOT, DOT, SLASH])
  }

  /** strchr (name, '/') + 1. */
  function AfterSlash(name: seq<Byte>): (r: seq<Byte>)
    requires SLASH in name
    ensures |r| < |name| && exists k :: 0 < k <= |name| && r == name[k..] && name[k - 1] == SLASH
  {
    if name[0] == SLASH then name[1..]
    else
      assert SLASH in name[1..];
      var r := AfterSlash(name[1..]);
      assert exists k :: 0 < k <= |name| && r == name[k..] && name[k - 1] == SLASH by {
        var k :| 0 < k <= |name| - 1 && r == name[1..][k..] && name[1..][k - 1] == SLASH;
        assert r == name[k + 1..] && name[k + 1 - 1] == SLASH;
      }
      r
  }

  lemma AntisocialSlash(name: seq<Byte>)
    requires Antisocial(name)
    ensures SLASH in name
  {
    if name[0] != SLASH {
      if name[..2] == [DOT, SLASH] { assert name[..2][1] == name[1]; } else { assert name[..3][2] == name[2]; }
    }
  }

  /** strip_antisocial_prefixes. */
  function Strip(name: seq<Byte>): (r: seq<Byte>)
    decreases |name|
  {
    if Antisocial(name) then AntisocialSlash(name); Strip(AfterSlash(name))
    else if name == [] || name == [DOT, DOT] then [DOT] else name
  }

  /** What is left does not start with a slash or a step up, and is not empty. */
  lemma {:induction false} StripSafe(name: seq<Byte>)
    ensures !Antisocial(Strip(name)) && Strip(name) != [] && Strip(name) != [DOT, DOT]
    decreases |name|
  {
    if Antisocial(name) {
      AntisocialSlash(name);
      StripSafe(AfterSlash(name));
    }
  }

  lemma SuffixOfSuffix(name: seq<Byte>, rest: seq<Byte>, r: seq<Byte>)
    requires exists j :: 0 <= j <= |name| && rest == name[j..]
    requires exists k :: 0 <= k <= |rest| && r == rest[k..]
    ensures exists k :: 0 <= k <= |name| && r == name[k..]
  {
    var j :| 0 <= j <= |name| && rest == name[j..];
    var k :| 0 <= k <= |rest| && r == rest[k..];
    assert r == name[j + k..];
  }

  /** What is left is the end of the name, or a dot. */
  lemma {:induction false} StripSuffix(name: seq<Byte>)
    ensures Strip(name) == [DOT] || exists k :: 0 <= k <= |name| && Strip(name) == name[k..]
    decreases |name|
  {
    if Antisocial(name) {
      AntisocialSlash(name);
      hide Antisocial;
      var rest := AfterSlash(name);
      StripSuffix(rest);
      if Strip(rest) != [DOT] { SuffixOfSuffix(name, rest, Strip(rest)); }
    } else if Strip(name) == name {
      assert name == name[0..];
    }
  }

  lemma StripString(name: seq<Byte>)
    requires IsString(name)
    ensures IsString(Strip(name))
  {
    hide Strip;
    StripSuffix(name);
  }

  lemma StripIdempotent(name: seq<Byte>)
    ensures Strip(Strip(name)) == Strip(name)
  {
    StripSafe(name);
  }

  /** "/", "./" and "../". */
  ghost predicate IsStep(piece: seq<Byte>) {
    piece == [SLASH] || piece == [DOT, SLASH] || piece == [DOT, DOT, SLASH]
  }

  ghost function Joined(pieces: seq<seq<Byte>>): (r: seq<Byte>) {
    if pieces == [] then [] else pieces[0] + Joined(pieces[1..])
  }

  lemma StepGoes(piece: seq<Byte>, rest: seq<Byte>)
    requires IsStep(piece)
    ensures Antisocial(piece + rest) && SLASH in piece + rest && AfterSlash(piece + rest) == rest
  {
    var name := piece + rest;
    assert name[|piece| - 1] == SLASH;
    if piece != [SLASH] {
      assert name[1..][|piece| - 2] == SLASH;
      if piece == [DOT, DOT, SLASH] {
        assert name[..3] == piece;
        var last := name[1..][1..];
        assert last[0] == SLASH && last[1..] == rest;
        assert AfterSlash(last) == rest;
        assert AfterSlash(name[1..]) == rest;
      } else {
        assert name[..2] == piece;
        assert name[1..][1..] == rest;
      }
    }
  }

  /** Stripping drops exactly the steps at the front: whatever the name is made of, what
      follows them is kept as it is, unless nothing follows or just "..". */
  lemma {:induction false} StripIs(pieces: seq<seq<Byte>>, rest: seq<Byte>)
    requires (forall i :: 0 <= i < |pieces| ==> IsStep(pieces[i])) && !Antisocial(rest)
    ensures Strip(Joined(pieces) + rest) == if rest == [] || rest == [DOT, DOT] then [DOT] else rest
  {
    if pieces == [] {
      assert Joined(pieces) + rest == rest;
    } else {
      var tail := Joined(pieces[1..]) + rest;
      assert Joined(pieces) + rest == pieces[0] + tail;
      StepGoes(pieces[0], tail);
      StripIs(pieces[1..], rest);
      hide Antisocial;
      assert Strip(pieces[0] + tail) == Strip(tail);
    }
  }

  /** Every name is made that way. */
  lemma {:induction false} MadeOfSteps(name: seq<Byte>) returns (pieces: seq<seq<Byte>>, rest: seq<Byte>)
    ensures (forall i :: 0 <= i < |pieces| ==> IsStep(pieces[i])) && !Antisocial(rest) && name == Joined(pieces) + rest
    decreases |name|
  {
    if Antisocial(name) {
      var n := if name[0] == SLASH then 1 else if name[1] == SLASH then 2 else 3;
      assert |name| >= n && IsStep(name[..n]);
      var more;
      more, rest := MadeOfSteps(name[n..]);
      pieces := [name[..n]] + more;
      assert pieces[1..] == more;
      assert name == name[..n] + name[n..];
    } else {
      pieces, rest := [], name;
    }
  }

  method StripPrefixes(name: seq<Byte>) returns (r: seq<Byte>)
    ensures r == Strip(name)
  {
    r := name;
    while Antisocial(r)
      invariant Strip(r) == Strip(name)
      decreases |r|
    {
      AntisocialSlash(r);
      r := AfterSlash(r);
    }
    if r == [] || r == [DOT, DOT] { r := [DOT]; }
  }

  /** The string at the start of a buffer. */
  function CString(s: seq<Byte>): (r: seq<Byte>) {
    if s == [] || s[0] == 0 then [] else [s[0]] + CString(s[1..])
  }

  lemma {:induction false} CStringIs(s: seq<Byte>, name: seq<Byte>)
    requires IsString(name) && |name| < |s| && s[..|name|] == name && s[|name|] == 0
    ensures CString(s) == name
  {
    if name != [] {
      assert s[0] == name[0];
      assert s[1..][..|name| - 1] == name[1..];
      CStringIs(s[1..], name[1..]);
    }
  }

  // Headers.

  /** The buffer `h` with `text` stored at `ofs`. */
  function Put(h: seq<Byte>, ofs: nat, text: seq<Byte>): (r: seq<Byte>)
    requires ofs + |text| <= |h|
    ensures |r| == |h|
    ensures forall i :: 0 <= i < |h| ==> r[i] == if ofs <= i < ofs + |text| then text[i - ofs] else h[i]
  {
    h[..ofs] + text + h[ofs + |text|..]
  }

  /** A string with its terminator. */
  function Z(text: seq<Byte>): (r: seq<Byte>) {
    text + [0]
  }

  /** An int as the unsigned conversion sees it. */
  function Unsigned(size: int): (r: nat)
    requires -0x8000_0000 <= size <= INT_MAX
  {
    if size < 0 then size + 0x1_0000_0000 else size
  }

  /** The fields up to the size. */
  function Front(name: seq<Byte>, typ: Byte, size: int): (r: seq<Byte>)
    requires |name| <= 99 && -0x8000_0000 <= size <= INT_MAX
    ensures |r| == HEADER_SIZE
  {
    var h := Put(seq(HEADER_SIZE, _ => 0), NAME, Z(name));
    var h := Put(h, MODE, Z(Digits(if typ == REGULAR then 420 else 493, 7)));
    var h := Put(h, UID, Z(Digits(0, 7)));
    var h := Put(h, GID, Z(Digits(0, 7)));
    Put(h, SIZE, Z(Digits(Unsigned(size), 11)))
  }

  /** The fields up to the version. */
  function Middle(name: seq<Byte>, typ: Byte, size: int): (r: seq<Byte>)
    requires |name| <= 99 && -0x8000_0000 <= size <= INT_MAX
    ensures |r| == HEADER_SIZE
  {
    var h := Put(Front(name, typ, size), MTIME, Z(Digits(1136102400, 11)));
    var h := Put(h, TYPEFLAG, [typ]);
    var h := Put(h, MAGIC, Ustar0());
    Put(h, VERSION, [ZERO, ZERO])
  }

  /** Everything but the checksum. */
  function Filled(name: seq<Byte>, typ: Byte, size: int): (r: seq<Byte>)
    requires |name| <= 99 && -0x8000_0000 <= size <= INT_MAX
    ensures |r| == HEADER_SIZE
  {
    Put(Put(Middle(name, typ, size), GNAME, Z(Root())), UNAME, Z(Root()))
  }

  /** The sum of the first `n` bytes, with spaces for the checksum field. */
  ghost function Sum(h: seq<Byte>, n: nat): (r: nat)
    requires n <= |h|
    ensures r <= 255 * n
  {
    if n == 0 then 0
    else Sum(h, n - 1) + if CHKSUM <= n - 1 < CHKSUM + 8 then SPACE else h[n - 1]
  }

  ghost function Header(name: seq<Byte>, typ: Byte, size: int): (r: seq<Byte>)
    requires |name| <= 99 && -0x8000_0000 <= size <= INT_MAX
  {
    var h := Filled(name, typ, size);
    Put(h, CHKSUM, Z(Digits(Sum(h, HEADER_SIZE), 7)))
  }

  /** The checksum does not depend on its own field. */
  lemma {:induction false} SumIgnoresField(h: seq<Byte>, g: seq<Byte>, n: nat)
    requires |h| == |g| && n <= |h|
    requires forall i :: 0 <= i < |h| && !(CHKSUM <= i < CHKSUM + 8) ==> h[i] == g[i]
    ensures Sum(h, n) == Sum(g, n)
  {
    if n > 0 { SumIgnoresField(h, g, n - 1); }
  }

  datatype Parsed = Eof | Bad(why: string) | Entry(name: seq<Byte>, typ: Byte, size: int)

  ghost predicate AllZero(h: seq<Byte>) {
    forall i :: 0 <= i < |h| ==> h[i] == 0
  }

  /** ustar_parse_header. */
  ghost function Parse(h: seq<Byte>): (r: Parsed)
    requires |h| == HEADER_SIZE
  {
    if AllZero(h) then Eof
    else if h[MAGIC..MAGIC + 6] != Ustar0() then Bad("not a ustar archive")
    else if h[VERSION] != ZERO || h[VERSION + 1] != ZERO then Bad("invalid ustar version")
    else
      var chksum := ParseFrom(h[CHKSUM..CHKSUM + 8], 0, 0);
      if chksum.None? then Bad("corrupt chksum field")
      else if chksum.value != Sum(h, HEADER_SIZE) then Bad("checksum mismatch")
      else if h[NAME + 99] != 0 || h[PREFIX] != 0 then Bad("file name too long")
      else if h[TYPEFLAG] != REGULAR && h[TYPEFLAG] != DIRECTORY then Bad("unimplemented file type")
      else if h[TYPEFLAG] == DIRECTORY then Entry(Strip(CString(h[NAME..NAME + 100])), DIRECTORY, 0)
      else
        var size := ParseFrom(h[SIZE..SIZE + 12], 0, 0);
        if size.None? then Bad("corrupt file size field")
        else if size.value > INT_MAX then Bad("file too large")
        else Entry(Strip(CString(h[NAME..NAME + 100])), REGULAR, size.value)
  }

  /** What each field of a made header holds. */
  lemma FrontFields(name: seq<Byte>, typ: Byte, size: int)
    requires |name| <= 99 && -0x8000_0000 <= size <= INT_MAX
    ensures var h := Front(name, typ, size);
            && h[..|name|] == name && h[|name|] == 0 && h[99] == 0
            && h[SIZE..SIZE + 11] == Digits(Unsigned(size), 11) && h[SIZE + 11] == 0
            && forall i :: SIZE + 12 <= i < HEADER_SIZE ==> h[i] == 0
  {
    hide Put, Digits;
  }

  /** The fields that Parse looks at, apart from the checksum. */
  ghost predicate Reads(h: seq<Byte>, name: seq<Byte>, typ: Byte, size: int)
    requires |h| == HEADER_SIZE && |name| <= 99 && -0x8000_0000 <= size <= INT_MAX
  {
    && h[..|name|] == name && h[|name|] == 0 && h[99] == 0 && h[PREFIX] == 0
    && h[SIZE..SIZE + 11] == Digits(Unsigned(size), 11) && h[SIZE + 11] == 0
    && h[TYPEFLAG] == typ && h[MAGIC..MAGIC + 6] == Ustar0() && h[VERSION] == h[VERSION + 1] == ZERO
  }

  lemma SliceSame(h: seq<Byte>, g: seq<Byte>, lo: nat, hi: nat)
    requires lo <= hi <= |h| == |g| && forall i :: lo <= i < hi ==> h[i] == g[i]
    ensures h[lo..hi] == g[lo..hi]
  {
  }

  /** The fields behind the size, which are set after it. */
  lemma FilledTail(name: seq<Byte>, typ: Byte, size: int)
    requires |name| <= 99 && -0x8000_0000 <= size <= INT_MAX
    ensures var h := Filled(name, typ, size);
            && h[TYPEFLAG] == typ && h[VERSION] == h[VERSION + 1] == ZERO
            && h[MAGIC..MAGIC + 6] == Ustar0()
            && (forall i :: 0 <= i < MTIME || PREFIX <= i < HEADER_SIZE ==> h[i] == Front(name, typ, size)[i])
  {
    hide Put, Digits, Front, Ustar0;
    assert |Ustar0()| == 6 by { UstarLength(); }
  }

  lemma UstarLength()
    ensures |Ustar0()| == 6
  {
  }

  lemma FilledFields(name: seq<Byte>, typ: Byte, size: int)
    requires |name| <= 99 && -0x8000_0000 <= size <= INT_MAX
    ensures Reads(Filled(name, typ, size), name, typ, size)
  {
    FrontFields(name, typ, size);
    FilledTail(name, typ, size);
    hide Put, Digits, Front, Filled, Ustar0;
    var f, h := Front(name, typ, size), Filled(name, typ, size);
    SliceSame(f, h, 0, |name|);
    SliceSame(f, h, SIZE, SIZE + 11);
  }

  lemma ReadsSame(h: seq<Byte>, g: seq<Byte>, name: seq<Byte>, typ: Byte, size: int)
    requires |h| == |g| == HEADER_SIZE && |name| <= 99 && -0x8000_0000 <= size <= INT_MAX && Reads(h, name, typ, size)
    requires forall i :: 0 <= i < HEADER_SIZE && !(CHKSUM <= i < CHKSUM + 8) ==> h[i] == g[i]
    ensures Reads(g, name, typ, size)
  {
    hide Digits, Ustar0;
    SliceSame(h, g, 0, |name|);
    SliceSame(h, g, SIZE, SIZE + 11);
    SliceSame(h, g, MAGIC, MAGIC + 6);
  }

  lemma PutSlice(h: seq<Byte>, ofs: nat, text: seq<Byte>, n: nat)
    requires ofs + |text| <= |h| && n <= |text|
    ensures Put(h, ofs, text)[ofs..ofs + n] == text[..n]
  {
  }

  lemma HeaderFields(name: seq<Byte>, typ: Byte, size: int)
    requires |name| <= 99 && -0x8000_0000 <= size <= INT_MAX
    ensures var h := Header(name, typ, size); var sum := Sum(h, HEADER_SIZE);
            && |h| == HEADER_SIZE && Reads(h, name, typ, size)
            && sum == Sum(Filled(name, typ, size), HEADER_SIZE)
            && h[CHKSUM..CHKSUM + 7] == Digits(sum, 7) && h[CHKSUM + 7] == 0
  {
    hide Put, Digits, Sum, Filled, Reads;
    var f, h := Filled(name, typ, size), Header(name, typ, size);
    FilledFields(name, typ, size);
    ReadsSame(f, h, name, typ, size);
    SumIgnoresField(h, f, HEADER_SIZE);
    PutSlice(f, CHKSUM, Z(Digits(Sum(f, HEADER_SIZE), 7)), 7);
  }

  lemma Widths()
    ensures Pow8(7) == 2097152 && Pow8(11) == 8589934592
  {
    assert Pow8(1) == 8 && Pow8(2) == 64 && Pow8(3) == 512 && Pow8(4) == 4096;
    assert Pow8(5) == 32768 && Pow8(6) == 262144 && Pow8(7) == 2097152 && Pow8(8) == 16777216;
    assert Pow8(9) == 134217728 && Pow8(10) == 1073741824;
  }

  /** A slice of the header whose start is known. */
  lemma SliceStart(h: seq<Byte>, ofs: nat, n: nat, w: nat, text: seq<Byte>)
    requires w <= n && ofs + n <= |h| && h[ofs..ofs + w] == text
    ensures h[ofs..ofs + n][..w] == text
  {
  }

  lemma ChecksumReads(name: seq<Byte>, typ: Byte, size: int)
    requires |name| <= 99 && -0x8000_0000 <= size <= INT_MAX
    ensures var h := Header(name, typ, size); ParseFrom(h[CHKSUM..CHKSUM + 8], 0, 0) == Some(Sum(h, HEADER_SIZE))
  {
    HeaderFields(name, typ, size);
    Widths();
    hide Digits, Header, Pow8, ParseFrom, Reads;
    var h := Header(name, typ, size);
    SliceStart(h, CHKSUM, 8, 7, Digits(Sum(h, HEADER_SIZE), 7));
    ParseDigits(h[CHKSUM..CHKSUM + 8], Sum(h, HEADER_SIZE), 7);
  }

  lemma SizeReads(h: seq<Byte>, name: seq<Byte>, typ: Byte, size: int)
    requires |h| == HEADER_SIZE && |name| <= 99 && -0x8000_0000 <= size <= INT_MAX && Reads(h, name, typ, size)
    ensures ParseFrom(h[SIZE..SIZE + 12], 0, 0) == Some(Unsigned(size))
  {
    Widths();
    hide Digits, Pow8, ParseFrom, Ustar0;
    SliceStart(h, SIZE, 12, 11, Digits(Unsigned(size), 11));
    ParseDigits(h[SIZE..SIZE + 12], Unsigned(size), 11);
  }

  lemma NameReads(h: seq<Byte>, name: seq<Byte>, typ: Byte, size: int)
    requires |h| == HEADER_SIZE && |name| <= 99 && -0x8000_0000 <= size <= INT_MAX && Reads(h, name, typ, size) && IsString(name)
    ensures CString(h[NAME..NAME + 100]) == name
  {
    hide Digits, Ustar0;
    CStringIs(h[NAME..NAME + 100], name);
  }

  /** Parsing a made header gives back the stripped name, the type, and the size, which
      is 0 for a directory; the one exception is a negative size of a regular file. */
  lemma RoundTrip(name: seq<Byte>, typ: Byte, size: int)
    requires IsString(name) && |Strip(name)| <= 99 && (typ == REGULAR || typ == DIRECTORY) && -0x8000_0000 <= size <= INT_MAX
    ensures Parse(Header(Strip(name), typ, size)) ==
              if typ == DIRECTORY then Entry(Strip(name), DIRECTORY, 0)
              else if size >= 0 then Entry(Strip(name), REGULAR, size)
              else Bad("file too large")
  {
    var n := Strip(name);
    var h := Header(n, typ, size);
    HeaderFields(n, typ, size);
    ChecksumReads(n, typ, size);
    SizeReads(h, n, typ, size);
    StripString(name);
    NameReads(h, n, typ, size);
    StripIdempotent(name);
    assert h[VERSION] != 0;
    hide Digits, Header, Strip, CString, ParseFrom, Sum, Ustar0;
  }

  // The format, byte by byte.

  ghost function Padded(text: seq<Byte>, n: nat): (r: seq<Byte>)
    requires |text| <= n
  {
    text + seq(n - |text|, _ => 0)
  }

  /** What section "ustar Interchange Format" of the standard says of the header of an entry:
      the fields at their offsets, numbers in octal, the rest zero. */
  ghost predicate Layout(h: seq<Byte>, name: seq<Byte>, typ: Byte, size: nat)
    requires |h| == 512 && |name| <= 99
  {
    && h[0..100] == Padded(name, 100)
    && Spells(h[100..108], 7, if typ == 48 then 6 * 64 + 4 * 8 + 4 else 7 * 64 + 5 * 8 + 5)
    && Spells(h[108..116], 7, 0) && Spells(h[116..124], 7, 0)
    && Spells(h[124..136], 11, size) && Spells(h[136..148], 11, 1136102400)
    && Spells(h[148..156], 7, Sum(h, 512)) && h[156] == typ
    && h[157..257] == Padded([], 100) && h[257..265] == [117, 115, 116, 97, 114, 0, 48, 48]
    && h[265..297] == h[297..329] == Padded([114, 111, 111, 116], 32)
    && h[329..512] == Padded([], 183)
  }

  lemma FrontLayout(name: seq<Byte>, typ: Byte, size: int)
    requires |name| <= 99 && -0x8000_0000 <= size <= INT_MAX
    ensures var h := Front(name, typ, size);
            && h[0..100] == Padded(name, 100) && h[100..108] == Z(Digits(if typ == REGULAR then 420 else 493, 7))
            && h[108..116] == h[116..124] == Z(Digits(0, 7)) && h[124..136] == Z(Digits(Unsigned(size), 11))
            && h[136..512] == Padded([], 376)
  {
    hide Put, Digits;
  }

  lemma FilledMiddle(name: seq<Byte>, typ: Byte, size: int)
    requires |name| <= 99 && -0x8000_0000 <= size <= INT_MAX
    ensures var f, h := Front(name, typ, size), Filled(name, typ, size);
            && (forall i :: 0 <= i < 136 || 157 <= i < 257 || 329 <= i < 512 ==> h[i] == f[i])
            && h[136..148] == Z(Digits(1136102400, 11)) && h[156] == typ
            && h[257..265] == [117, 115, 116, 97, 114, 0, 48, 48]
  {
    hide Put, Digits, Front;
  }

  lemma FilledOwners(name: seq<Byte>, typ: Byte, size: int)
    requires |name| <= 99 && -0x8000_0000 <= size <= INT_MAX
    ensures forall i :: 265 <= i < 329 ==> Filled(name, typ, size)[i] == OwnerByte(i)
  {
    MiddleZeros(name, typ, size);
    hide Put, Middle;
  }

  lemma MiddleZeros(name: seq<Byte>, typ: Byte, size: int)
    requires |name| <= 99 && -0x8000_0000 <= size <= INT_MAX
    ensures forall i :: 265 <= i < 512 ==> Middle(name, typ, size)[i] == 0
  {
    FrontFields(name, typ, size);
    UstarLength();
    hide Put, Digits, Front, Ustar0;
  }

  /** The names of user and group: "root", and zeros. */
  ghost function OwnerByte(i: nat): (b: Byte)
    requires 265 <= i < 329
  {
    if i < 269 then Root()[i - 265] else if 297 <= i < 301 then Root()[i - 297] else 0
  }

  lemma FilledLayout(name: seq<Byte>, typ: Byte, size: int)
    requires |name| <= 99 && -0x8000_0000 <= size <= INT_MAX
    ensures var f, h := Front(name, typ, size), Filled(name, typ, size);
            && (forall i :: 0 <= i < 136 || 157 <= i < 257 || 329 <= i < 512 ==> h[i] == f[i])
            && h[136..148] == Z(Digits(1136102400, 11)) && h[156] == typ
            && h[257..265] == [117, 115, 116, 97, 114, 0, 48, 48]
            && h[265..297] == Padded([114, 111, 111, 116], 32) && h[297..329] == Padded([114, 111, 111, 116], 32)
  {
    FilledMiddle(name, typ, size);
    FilledOwners(name, typ, size);
    hide Put, Digits, Front, Filled;
  }

  lemma FieldSpells(h: seq<Byte>, lo: nat, hi: nat, v: nat, w: nat)
    requires lo + w + 1 == hi <= |h| && w > 0 && h[lo..hi] == Z(Digits(v, w)) && v < Pow8(w)
    ensures Spells(h[lo..hi], w, v)
  {
    ValueDigits(v, w);
    assert Z(Digits(v, w))[..w] == Digits(v, w);
  }

  /** The fields before and behind the times and the checksum. */
  lemma HeaderSlices(name: seq<Byte>, typ: Byte, size: int)
    requires |name| <= 99 && -0x8000_0000 <= size <= INT_MAX
    ensures var f, h := Front(name, typ, size), Header(name, typ, size);
            && |h| == 512 && h[0..100] == f[0..100] && h[100..108] == f[100..108] && h[108..116] == f[108..116]
            && h[116..124] == f[116..124] && h[124..136] == f[124..136] && h[157..257] == f[157..257] && h[329..512] == f[329..512]
            && h[136..148] == Z(Digits(1136102400, 11)) && h[156] == typ
            && h[257..265] == [117, 115, 116, 97, 114, 0, 48, 48]
            && h[265..297] == h[297..329] == Padded([114, 111, 111, 116], 32)
  {
    FilledLayout(name, typ, size);
    HeaderPuts(name, typ, size);
    hide *;
    var f, g, h := Front(name, typ, size), Filled(name, typ, size), Header(name, typ, size);
    SliceSame(f, h, 0, 100);
    SliceSame(f, h, 100, 108);
    SliceSame(f, h, 108, 116);
    SliceSame(f, h, 116, 124);
    SliceSame(f, h, 124, 136);
    SliceSame(f, h, 157, 257);
    SliceSame(f, h, 329, 512);
    SliceSame(g, h, 136, 148);
    SliceSame(g, h, 257, 265);
    SliceSame(g, h, 265, 297);
    SliceSame(g, h, 297, 329);
  }

  lemma HeaderPuts(name: seq<Byte>, typ: Byte, size: int)
    requires |name| <= 99 && -0x8000_0000 <= size <= INT_MAX
    ensures |Header(name, typ, size)| == 512
    ensures forall i :: 0 <= i < 148 || 156 <= i < 512 ==> Header(name, typ, size)[i] == Filled(name, typ, size)[i]
  {
    hide Put, Digits, Filled, Sum;
  }

  lemma NumberFields(h: seq<Byte>, size: nat)
    requires |h| == 512 && size < Pow8(11) && h[124..136] == Z(Digits(size, 11)) && h[136..148] == Z(Digits(1136102400, 11))
    requires h[148..155] == Digits(Sum(h, 512), 7) && h[155] == 0
    ensures Spells(h[124..136], 11, size) && Spells(h[136..148], 11, 1136102400) && Spells(h[148..156], 7, Sum(h, 512))
  {
    Widths();
    hide Digits, Sum, Pow8, Spells;
    FieldSpells(h, 124, 136, size, 11);
    FieldSpells(h, 136, 148, 1136102400, 11);
    assert h[148..156] == h[148..155] + [h[155]];
    FieldSpells(h, 148, 156, Sum(h, 512), 7);
  }

  lemma ZeroFields(f: seq<Byte>)
    requires |f| == 512 && f[136..512] == Padded([], 376)
    ensures f[157..257] == Padded([], 100) && f[329..512] == Padded([], 183)
  {
    forall i | 136 <= i < 512 ensures f[i] == 0 {
      assert f[i] == f[136..512][i - 136];
    }
  }

  /** A made header is laid out as the standard says. */
  lemma HeaderLayout(name: seq<Byte>, typ: Byte, size: int)
    requires |name| <= 99 && -0x8000_0000 <= size <= INT_MAX
    ensures |Header(name, typ, size)| == 512 && Layout(Header(name, typ, size), name, typ, Unsigned(size))
  {
    FrontLayout(name, typ, size);
    HeaderSlices(name, typ, size);
    HeaderFields(name, typ, size);
    Widths();
    var f, h := Front(name, typ, size), Header(name, typ, size);
    hide Put, Digits, Front, Filled, Sum, Header, Reads, Pow8, Spells;
    FieldSpells(h, 100, 108, if typ == REGULAR then 420 else 493, 7);
    FieldSpells(h, 108, 116, 0, 7);
    FieldSpells(h, 116, 124, 0, 7);
    NumberFields(h, Unsigned(size));
    ZeroFields(f);
  }

  /** The checksum of an empty header, and how it changes with each byte: together these
      say what it is of any header. */
  lemma SumZero()
    ensures Sum(seq(512, _ => 0), 512) == 8 * 32
  {
    var z: seq<Byte> := seq(512, _ => 0);
    SumZeroUpTo(z, 512);
  }

  lemma {:induction false} SumZeroUpTo(z: seq<Byte>, n: nat)
    requires n <= |z| == 512 && forall i :: 0 <= i < 512 ==> z[i] == 0
    ensures Sum(z, n) == if n <= 148 then 0 else if n < 156 then 32 * (n - 148) else 256
  {
    if n > 0 { SumZeroUpTo(z, n - 1); }
  }

  lemma {:induction false} SumChange(h: seq<Byte>, i: nat, b: Byte, n: nat)
    requires i < |h| && n <= |h|
    ensures Sum(h[i := b], n) == Sum(h, n) + if i < n && !(148 <= i < 156) then b - h[i] else 0
  {
    if n > 0 { SumChange(h, i, b, n - 1); }
  }

  // What is wrong with a header.

  /** The checks of ustar_parse_header, in the order of the code, and what each says. */
  ghost predicate Passes(h: seq<Byte>, i: nat)
    requires |h| == 512 && i < 8
  {
    if i == 0 then h[257..263] == [117, 115, 116, 97, 114, 0]
    else if i == 1 then h[263] == 48 && h[264] == 48
    else if i == 2 then exists v: nat, k: nat :: v <= 0xFFFF_FFFF && Spells(h[148..156], k, v)
    else if i == 3 then exists k: nat :: Spells(h[148..156], k, Sum(h, 512))
    else if i == 4 then h[99] == 0 && h[345] == 0
    else if i == 5 then h[156] == 48 || h[156] == 53
    else if i == 6 then h[156] == 48 ==> exists v: nat, k: nat :: v <= 0xFFFF_FFFF && Spells(h[124..136], k, v)
    else h[156] == 48 ==> exists v: nat, k: nat :: v <= 0x7FFF_FFFF && Spells(h[124..136], k, v)
  }

  ghost function Complaint(i: nat): (r: string)
    requires i < 8
  {
    ["not a ustar archive", "invalid ustar version", "corrupt chksum field", "checksum mismatch", "file name too long",
     "unimplemented file type", "corrupt file size field", "file too large"][i]
  }

  lemma FieldParses(s: seq<Byte>)
    ensures ParseFrom(s, 0, 0).Some? <==> exists v: nat, k: nat :: v <= ULONG_MAX && Spells(s, k, v)
    ensures forall v: nat :: ParseFrom(s, 0, 0) == Some(v) <==> v <= ULONG_MAX && exists k: nat :: Spells(s, k, v)
  {
    hide ParseFrom, Spells;
    forall v: nat ensures ParseFrom(s, 0, 0) == Some(v) <==> v <= ULONG_MAX && exists k: nat :: Spells(s, k, v) {
      ParseExact(s, v);
    }
    if ParseFrom(s, 0, 0).Some? {
      var k: nat :| Spells(s, k, ParseFrom(s, 0, 0).value);
    }
    if v: nat, k: nat :| v <= ULONG_MAX && Spells(s, k, v) {
      assert ParseFrom(s, 0, 0) == Some(v);
    }
  }

  lemma ChksumChecks(h: seq<Byte>)
    requires |h| == 512
    ensures var chksum := ParseFrom(h[148..156], 0, 0);
            (chksum.Some? <==> Passes(h, 2)) && (chksum == Some(Sum(h, 512)) <==> Passes(h, 3))
  {
    FieldParses(h[148..156]);
    hide ParseFrom, Spells;
  }

  lemma SizeChecks(h: seq<Byte>)
    requires |h| == 512
    ensures var size := ParseFrom(h[124..136], 0, 0);
            && ((h[156] == 48 ==> size.Some?) <==> Passes(h, 6))
            && ((h[156] == 48 ==> size.Some? && size.value <= 0x7FFF_FFFF) <==> Passes(h, 7))
  {
    FieldParses(h[124..136]);
    hide ParseFrom, Spells;
    var size := ParseFrom(h[124..136], 0, 0);
    if size.Some? && size.value <= 0x7FFF_FFFF {
      var k: nat :| Spells(h[124..136], k, size.value);
    }
    if v: nat, k: nat :| v <= 0x7FFF_FFFF && Spells(h[124..136], k, v) {
      assert size == Some(v);
    }
  }

  lemma ChecksAre(h: seq<Byte>)
    requires |h| == 512
    ensures h[MAGIC..MAGIC + 6] == Ustar0() <==> Passes(h, 0)
    ensures (h[VERSION] == ZERO && h[VERSION + 1] == ZERO) <==> Passes(h, 1)
    ensures (h[NAME + 99] == 0 && h[PREFIX] == 0) <==> Passes(h, 4)
    ensures (h[TYPEFLAG] == REGULAR || h[TYPEFLAG] == DIRECTORY) <==> Passes(h, 5)
  {
  }

  /** A header that is not all zeros is refused for the first check that it fails, and taken
      if it fails none. */
  lemma FirstComplaint(h: seq<Byte>, i: nat)
    requires |h| == 512 && !AllZero(h) && i <= 8 && (forall j :: 0 <= j < i ==> Passes(h, j)) && (i < 8 ==> !Passes(h, i))
    ensures if i < 8 then Parse(h) == Bad(Complaint(i)) else Parse(h).Entry? && Parse(h).typ == h[156]
  {
    ChecksAre(h);
    ChksumChecks(h);
    SizeChecks(h);
    hide ParseFrom, Passes, Strip, CString, Sum, AllZero, Ustar0;
    assert i > 0 ==> Passes(h, 0);
    assert i > 1 ==> Passes(h, 1);
    assert i > 2 ==> Passes(h, 2);
    assert i > 3 ==> Passes(h, 3);
    assert i > 4 ==> Passes(h, 4);
    assert i > 5 ==> Passes(h, 5);
    assert i > 6 ==> Passes(h, 6);
    assert i > 7 ==> Passes(h, 7);
  }

  /** calculate_chksum. */
  method Checksum(h: seq<Byte>) returns (sum: nat)
    requires |h| == HEADER_SIZE
    ensures sum == Sum(h, HEADER_SIZE)
  {
    sum := 0;
    var i := 0;
    while i < HEADER_SIZE
      invariant i <= HEADER_SIZE && sum == Sum(h, i)
    {
      var inField := i >= CHKSUM && i < CHKSUM + 8;
      sum := sum + if inField then SPACE else h[i];
      i := i + 1;
    }
  }

  /** is_all_zeros. */
  method IsAllZeros(h: seq<Byte>) returns (r: bool)
    ensures r == AllZero(h)
  {
    var i := 0;
    while i < |h|
      invariant i <= |h| && forall k :: 0 <= k < i ==> h[k] == 0
    {
      if h[i] != 0 { return false; }
      i := i + 1;
    }
    return true;
  }

  method ParseHeader(h: seq<Byte>) returns (r: Parsed)
    requires |h| == HEADER_SIZE
    ensures r == Parse(h)
  {
    hide ParseFrom, Sum, Strip, CString;
    var zeros := IsAllZeros(h);
    if zeros { return Eof; }
    if h[MAGIC..MAGIC + 6] != Ustar0() { return Bad("not a ustar archive"); }
    if h[VERSION] != ZERO || h[VERSION + 1] != ZERO { return Bad("invalid ustar version"); }
    var chksum := ParseField(h[CHKSUM..CHKSUM + 8]);
    if chksum.None? { return Bad("corrupt chksum field"); }
    var sum := Checksum(h);
    if chksum.value != sum { return Bad("checksum mismatch"); }
    if h[NAME + 99] != 0 || h[PREFIX] != 0 { return Bad("file name too long"); }
    if h[TYPEFLAG] != REGULAR && h[TYPEFLAG] != DIRECTORY { return Bad("unimplemented file type"); }
    var size := 0;
    if h[TYPEFLAG] == REGULAR {
      var field := ParseField(h[SIZE..SIZE + 12]);
      if field.None? { return Bad("corrupt file size field"); }
      if field.value > INT_MAX { return Bad("file too large"); }
      size := field.value;
    }
    var name := StripPrefixes(CString(h[NAME..NAME + 100]));
    return Entry(name, h[TYPEFLAG], size);
  }

  /** Stores `text` and a terminator in a field, as strlcpy and snprintf do. */
  method Store(header: array<Byte>, ofs: nat, text: seq<Byte>)
    requires ofs + |text| <= header.Length
    modifies header
    ensures header[..] == Put(old(header[..]), ofs, text)
  {
    var i := 0;
    while i < |text|
      invariant i <= |text|
      invariant forall k :: 0 <= k < header.Length ==>
                  header[k] == if ofs <= k < ofs + i then text[k - ofs] else old(header[k])
    {
      header[ofs + i] := text[i];
      i := i + 1;
    }
  }

  method StoreOctal(header: array<Byte>, ofs: nat, value: nat, width: nat)
    requires ofs + width + 1 <= header.Length && 0 < width && value < Pow8(width)
    modifies header
    ensures header[..] == Put(old(header[..]), ofs, Z(Digits(value, width)))
  {
    NeedsAtMost(value, width);
    var text := Format(value, width);
    Store(header, ofs, Z(text));
  }

  /** ustar_make_header: fails exactly when the stripped name is too long. */
  method MakeHeader(name: seq<Byte>, typ: Byte, size: int, header: array<Byte>) returns (ok: bool)
    requires header.Length == HEADER_SIZE && (typ == REGULAR || typ == DIRECTORY) && -0x8000_0000 <= size <= INT_MAX
    modifies header
    ensures ok <==> |Strip(name)| <= 99
    ensures ok ==> header[..] == Header(Strip(name), typ, size) && Layout(header[..], Strip(name), typ, Unsigned(size))
    ensures !ok ==> header[..] == old(header[..])
  {
    hide Digits, Strip, Sum, Pow8, Put, Layout;
    Widths();
    var n := StripPrefixes(name);
    if |n| > 99 { return false; }
    HeaderLayout(n, typ, size);
    MakeFront(n, typ, size, header);
    MakeRest(n, typ, size, header);
    var sum := Checksum(header[..]);
    StoreOctal(header, CHKSUM, sum, 7);
    return true;
  }

  method MakeFront(n: seq<Byte>, typ: Byte, size: int, header: array<Byte>)
    requires header.Length == HEADER_SIZE && |n| <= 99 && -0x8000_0000 <= size <= INT_MAX
    modifies header
    ensures header[..] == Front(n, typ, size)
  {
    hide Digits, Pow8, Put;
    Widths();
    var i := 0;
    while i < header.Length
      invariant i <= header.Length && forall k :: 0 <= k < i ==> header[k] == 0
    {
      header[i] := 0;
      i := i + 1;
    }
    assert header[..] == seq(HEADER_SIZE, _ => 0);
    Store(header, NAME, Z(n));
    StoreOctal(header, MODE, if typ == REGULAR then 420 else 493, 7);
    StoreOctal(header, UID, 0, 7);
    StoreOctal(header, GID, 0, 7);
    StoreOctal(header, SIZE, Unsigned(size), 11);
  }

  method MakeRest(n: seq<Byte>, typ: Byte, size: int, header: array<Byte>)
    requires header.Length == HEADER_SIZE && |n| <= 99 && -0x8000_0000 <= size <= INT_MAX
    requires header[..] == Front(n, typ, size)
    modifies header
    ensures header[..] == Filled(n, typ, size)
  {
    hide Digits, Pow8, Put, Front;
    Widths();
    StoreOctal(header, MTIME, 1136102400, 11);
    Store(header, TYPEFLAG, [typ]);
    Store(header, MAGIC, Ustar0());
    Store(header, VERSION, [ZERO, ZERO]);
    Store(header, GNAME, Z(Root()));
    Store(header, UNAME, Z(Root()));
  }
}
