/**
 * The XDR encoders of the ONC RPC layer (src/net/tcp/oncrpc.c) and the
 * decoders they are checked against.
 *
 * An I/O buffer is the sequence of bytes between its data and tail
 * positions; the encoders append to it (`iob_put`), the readers consume
 * from its front (`iob_pull`).  Integers are 32-bit big-endian words
 * (section 4.1 of RFC 4506), strings are length-prefixed and zero-padded
 * to a multiple of four bytes (section 4.11 of RFC 4506), integer arrays
 * are a count followed by the elements (section 4.13 of RFC 4506), and
 * credentials are a flavor, a length and, for AUTH_SYS, the body of
 * Appendix A of RFC 5531.
 */
module Xdr {
  import opened Optional

  /** One octet. */
  type Byte = b: int | 0 <= b < 0x100

  /** A `uint32_t`. */
  type U32 = x: int | 0 <= x < 0x1_0000_0000

  /** The conversion of a C integer to `uint32_t`: reduction modulo 2^32. */
  function ToU32(x: int): (r: U32)
    ensures 0 <= x < 0x1_0000_0000 ==> r == x
  {
    x % 0x1_0000_0000
  }

  /** The four bytes `oncrpc_iob_add_int` appends: the word in network order. */
  function Word(x: U32): seq<Byte> {
    var lo := x % 0x100;
    var y := x / 0x100;
    var mid := y % 0x100;
    var z := y / 0x100;
    [z / 0x100, z % 0x100, mid, lo]
  }

  /** The word `oncrpc_iob_get_int` reads from the first four bytes. */
  function WordValue(b: seq<Byte>): U32
    requires |b| >= 4
  {
    var b0: int, b1: int, b2: int, b3: int := b[0], b[1], b[2], b[3];
    b0 * 0x100_0000 + b1 * 0x1_0000 + b2 * 0x100 + b3
  }

  lemma WordRoundTrip(x: U32)
    ensures |Word(x)| == 4 && WordValue(Word(x)) == x
  {
    var y := x / 0x100;
    var z := y / 0x100;
    assert x == y * 0x100 + x % 0x100;
    assert y == z * 0x100 + y % 0x100;
    assert z == (z / 0x100) * 0x100 + z % 0x100;
  }

  /** Reads one word and returns it with the rest of the buffer. */
  function DecodeWord(b: seq<Byte>): Option<(U32, seq<Byte>)> {
    if |b| < 4 then None else Some((WordValue(b), b[4..]))
  }

  lemma DecodeWordOf(x: U32, rest: seq<Byte>)
    ensures DecodeWord(Word(x) + rest) == Some((x, rest))
  {
    WordRoundTrip(x);
    var b := Word(x) + rest;
    assert b[..4] == Word(x);
    assert b[4..] == rest;
  }

  // ----- strings (section 4.11 of RFC 4506) -----

  /** The number of zero bytes that bring `n` up to a multiple of four. */
  function Pad(n: nat): (p: nat)
    ensures p < 4 && (n + p) % 4 == 0
  {
    (4 - n % 4) % 4
  }

  /** `n + Pad(n)` is the first multiple of four at or after `n`. */
  lemma PadIsLeast(n: nat, k: nat)
    requires n <= k <= n + Pad(n) && k % 4 == 0
    ensures k == n + Pad(n)
  {
    var q, r := n / 4, n % 4;
    assert n == 4 * q + r;
    assert k / 4 * 4 == k;
  }

  function Zeros(k: nat): (z: seq<Byte>)
    ensures |z| == k && forall i | 0 <= i < k :: z[i] == 0
  {
    seq(k, _ => 0)
  }

  /** A C string: its bytes stop at the first NUL, so none of them is NUL. */
  predicate IsCString(s: seq<Byte>) {
    forall i | 0 <= i < |s| :: s[i] != 0
  }

  /** What `oncrpc_iob_add_string` appends for a string of bytes `s`. */
  function EncodeString(s: seq<Byte>): seq<Byte> {
    Word(ToU32(|s|)) + s + Zeros(Pad(|s|))
  }

  /**
   * A string is 4 + n + pad bytes, a multiple of four, with its bytes after
   * the length word and only zeros after them.
   */
  lemma EncodeStringShape(s: seq<Byte>)
    ensures var e := EncodeString(s);
      && |e| == 4 + |s| + Pad(|s|)
      && |e| % 4 == 0
      && e[4..4 + |s|] == s
      && (forall i | 4 + |s| <= i < |e| :: e[i] == 0)
      && (|s| < 0x1_0000_0000 ==> WordValue(e) == |s|)
  {
    var w, z := Word(ToU32(|s|)), Zeros(Pad(|s|));
    var e := EncodeString(s);
    WordRoundTrip(ToU32(|s|));
    assert e == w + s + z;
    assert e[4..4 + |s|] == s;
    assert e[..4] == w;
    forall i | 4 + |s| <= i < |e|
      ensures e[i] == 0
    {
      assert e[i] == z[i - 4 - |s|];
    }
    WordAligned(|s| + Pad(|s|));
  }

  lemma WordAligned(k: nat)
    requires k % 4 == 0
    ensures (4 + k) % 4 == 0
  {
    assert 4 + k == 4 * (k / 4 + 1);
  }

  /** The reader for a string: length word, bytes, zero padding. */
  function DecodeString(b: seq<Byte>): Option<(seq<Byte>, seq<Byte>)> {
    var (n, rest) :- DecodeWord(b);
    if |rest| < n + Pad(n) || rest[n..n + Pad(n)] != Zeros(Pad(n)) then None
    else Some((rest[..n], rest[n + Pad(n)..]))
  }

  lemma StringRoundTrip(s: seq<Byte>, rest: seq<Byte>)
    requires |s| < 0x1_0000_0000
    ensures DecodeString(EncodeString(s) + rest) == Some((s, rest))
  {
    var n := |s|;
    var tail := s + Zeros(Pad(n)) + rest;
    assert EncodeString(s) + rest == Word(n) + tail;
    DecodeWordOf(n, tail);
    assert tail[..n] == s;
    assert tail[n..n + Pad(n)] == Zeros(Pad(n));
    assert tail[n + Pad(n)..] == rest;
  }

  // ----- integer arrays (section 4.13 of RFC 4506) -----

  /** The elements of an array, one word each, in order. */
  function EncodeWords(a: seq<U32>): (e: seq<Byte>)
    ensures |e| == 4 * |a|
  {
    if a == [] then [] else Word(a[0]) + EncodeWords(a[1..])
  }

  lemma {:induction false} EncodeWordsAppend(a: seq<U32>, x: U32)
    ensures EncodeWords(a + [x]) == EncodeWords(a) + Word(x)
  {
    if a == [] {
      assert a + [x] == [x];
      assert EncodeWords([x]) == Word(x) + EncodeWords([]);
    } else {
      assert (a + [x])[1..] == a[1..] + [x];
      EncodeWordsAppend(a[1..], x);
    }
  }

  /** What `oncrpc_iob_add_intarray` appends: the count, then the elements. */
  function EncodeIntArray(a: seq<U32>): seq<Byte> {
    Word(ToU32(|a|)) + EncodeWords(a)
  }

  function DecodeWords(n: nat, b: seq<Byte>): Option<(seq<U32>, seq<Byte>)>
    decreases n
  {
    if n == 0 then Some(([], b))
    else if |b| < 4 then None
    else match DecodeWords(n - 1, b[4..])
      case None => None
      case Some(more) => Some(([WordValue(b)] + more.0, more.1))
  }

  lemma {:induction false} DecodeWordsRoundTrip(a: seq<U32>, rest: seq<Byte>)
    ensures DecodeWords(|a|, EncodeWords(a) + rest) == Some((a, rest))
  {
    if a == [] {
      assert EncodeWords(a) + rest == rest;
    } else {
      var tail := EncodeWords(a[1..]) + rest;
      assert EncodeWords(a) + rest == Word(a[0]) + tail;
      var b := Word(a[0]) + tail;
      DecodeWordOf(a[0], tail);
      assert WordValue(b) == a[0] && b[4..] == tail;
      DecodeWordsRoundTrip(a[1..], rest);
      assert DecodeWords(|a| - 1, b[4..]) == Some((a[1..], rest));
      assert [a[0]] + a[1..] == a;
    }
  }

  function DecodeIntArray(b: seq<Byte>): Option<(seq<U32>, seq<Byte>)> {
    var (n, rest) :- DecodeWord(b);
    DecodeWords(n, rest)
  }

  /** An array of n elements is (n + 1) * 4 bytes and reads back as itself. */
  lemma IntArrayRoundTrip(a: seq<U32>, rest: seq<Byte>)
    requires |a| < 0x1_0000_0000
    ensures |EncodeIntArray(a)| == (|a| + 1) * 4
    ensures DecodeIntArray(EncodeIntArray(a) + rest) == Some((a, rest))
  {
    var tail := EncodeWords(a) + rest;
    assert EncodeIntArray(a) + rest == Word(|a|) + tail;
    DecodeWordOf(|a|, tail);
    DecodeWordsRoundTrip(a, rest);
  }

  // ----- credentials (Appendix A of RFC 5531) -----

  const AuthNone: U32 := 0
  const AuthSys: U32 := 1

  /**
   * A credential or verifier: `struct oncrpc_cred`, or the `struct
   * oncrpc_cred_sys` that starts with one.  `length` is the stored length
   * field, written as it is.
   */
  datatype Cred =
    | Cred(flavor: U32, length: U32)
    | SysCred(flavor: U32, length: U32, stamp: U32, hostname: seq<Byte>,
              uid: U32, gid: U32, auxGids: seq<U32>)

  /** The credential of `oncrpc_auth_none`. */
  const NoAuth: Cred := Cred(AuthNone, 0)

  /**
   * The encoder reads the AUTH_SYS fields of any credential whose flavor
   * says AUTH_SYS, so such a credential must be a `struct oncrpc_cred_sys`.
   */
  predicate Encodable(c: Cred) {
    c.flavor == AuthSys ==> c.SysCred?
  }

  function SysBody(c: Cred): seq<Byte>
    requires c.SysCred?
  {
    Word(c.stamp) + EncodeString(c.hostname) + Word(c.uid) + Word(c.gid) + EncodeIntArray(c.auxGids)
  }

  /** What `oncrpc_iob_add_cred` appends for a credential. */
  function EncodeCred(c: Cred): seq<Byte>
    requires Encodable(c)
  {
    Word(c.flavor) + Word(c.length) + (if c.flavor == AuthSys then SysBody(c) else [])
  }

  /**
   * AUTH_NONE and every flavor other than AUTH_SYS is flavor and length
   * only: 8 bytes.  AUTH_SYS adds stamp, hostname, uid, gid and the
   * auxiliary gids: 8 + 4 + (4 + n + pad) + 4 + 4 + 4 + 4k bytes.
   */
  lemma EncodeCredSize(c: Cred)
    requires Encodable(c)
    ensures c.flavor != AuthSys ==> |EncodeCred(c)| == 8
    ensures c.flavor == AuthSys ==>
      |EncodeCred(c)| == 28 + |c.hostname| + Pad(|c.hostname|) + 4 * |c.auxGids|
    ensures |EncodeCred(c)| % 4 == 0
  {
    if c.flavor == AuthSys {
      EncodeStringShape(c.hostname);
    }
  }

  /** The reader for the AUTH_SYS fields that follow flavor and length. */
  function DecodeSysBody(flavor: U32, length: U32, b: seq<Byte>): Option<(Cred, seq<Byte>)> {
    var (stamp, r3) :- DecodeWord(b);
    var (hostname, r4) :- DecodeString(r3);
    var (uid, r5) :- DecodeWord(r4);
    var (gid, r6) :- DecodeWord(r5);
    var (aux, r7) :- DecodeIntArray(r6);
    Some((SysCred(flavor, length, stamp, hostname, uid, gid, aux), r7))
  }

  /** The reader for the credentials this encoder writes. */
  function DecodeCred(b: seq<Byte>): Option<(Cred, seq<Byte>)> {
    var (flavor, r1) :- DecodeWord(b);
    var (length, r2) :- DecodeWord(r1);
    if flavor != AuthSys then Some((Cred(flavor, length), r2))
    else DecodeSysBody(flavor, length, r2)
  }

  /** A credential whose shape matches its flavor and whose lengths fit a word. */
  predicate WellFormed(c: Cred) {
    && (c.SysCred? <==> c.flavor == AuthSys)
    && (c.SysCred? ==> |c.hostname| < 0x1_0000_0000 && |c.auxGids| < 0x1_0000_0000)
  }

  lemma SysBodyRoundTrip(c: Cred, rest: seq<Byte>)
    requires c.SysCred? && |c.hostname| < 0x1_0000_0000 && |c.auxGids| < 0x1_0000_0000
    ensures DecodeSysBody(c.flavor, c.length, SysBody(c) + rest) == Some((c, rest))
  {
    var r6 := EncodeIntArray(c.auxGids) + rest;
    var r5 := Word(c.gid) + r6;
    var r4 := Word(c.uid) + r5;
    var r3 := EncodeString(c.hostname) + r4;
    assert SysBody(c) + rest == Word(c.stamp) + r3;
    DecodeWordOf(c.stamp, r3);
    StringRoundTrip(c.hostname, r4);
    DecodeWordOf(c.uid, r5);
    DecodeWordOf(c.gid, r6);
    IntArrayRoundTrip(c.auxGids, rest);
  }

  lemma CredRoundTrip(c: Cred, rest: seq<Byte>)
    requires WellFormed(c)
    ensures DecodeCred(EncodeCred(c) + rest) == Some((c, rest))
  {
    var r2 := (if c.flavor == AuthSys then SysBody(c) else []) + rest;
    var r1 := Word(c.length) + r2;
    assert EncodeCred(c) + rest == Word(c.flavor) + r1;
    DecodeWordOf(c.flavor, r1);
    DecodeWordOf(c.length, r2);
    if c.flavor == AuthSys {
      SysBodyRoundTrip(c, rest);
    }
  }

  lemma Assoc4(a: seq<Byte>, b: seq<Byte>, c: seq<Byte>, d: seq<Byte>)
    ensures a + b + c + d == a + (b + (c + d))
  {
  }

  /** What `oncrpc_iob_get_cred` reads: flavor and length, and nothing more. */
  function ReadCredHeader(b: seq<Byte>): (Cred, seq<Byte>)
    requires |b| >= 8
  {
    (Cred(WordValue(b), WordValue(b[4..])), b[8..])
  }

  /**
   * Reading back an encoded credential recovers its flavor and length, but
   * an AUTH_SYS body is left unread in front of what follows.
   */
  lemma ReadCredHeaderOf(c: Cred, rest: seq<Byte>)
    requires Encodable(c)
    ensures |EncodeCred(c) + rest| >= 8
    ensures var (h, r) := ReadCredHeader(EncodeCred(c) + rest);
      && h == Cred(c.flavor, c.length)
      && r == (if c.flavor == AuthSys then SysBody(c) else []) + rest
  {
    var tail := if c.flavor == AuthSys then SysBody(c) else [];
    var r2 := tail + rest;
    var r1 := Word(c.length) + r2;
    var b := EncodeCred(c) + rest;
    assert EncodeCred(c) == Word(c.flavor) + Word(c.length) + tail;
    Assoc4(Word(c.flavor), Word(c.length), tail, rest);
    DecodeWordOf(c.flavor, r1);
    DecodeWordOf(c.length, r2);
    assert b[4..] == r1;
    assert b[8..] == r1[4..];
  }

  // ----- the I/O buffer and the encoders as the C code runs them -----

  /** A `struct io_buffer`: the bytes between its data and tail positions. */
  class IoBuffer {
    var data: seq<Byte>

    constructor (init: seq<Byte>)
      ensures data == init
    {
      data := init;
    }
  }

  /** `oncrpc_iob_add_int`: appends one word and returns its size, 4. */
  method AddInt(buf: IoBuffer, x: int) returns (size: nat)
    modifies buf
    ensures buf.data == old(buf.data) + Word(ToU32(x))
    ensures size == 4
  {
    buf.data := buf.data + Word(ToU32(x));
    size := 4;
  }

  /** `oncrpc_iob_get_int`: consumes one word from the front. */
  method GetInt(buf: IoBuffer) returns (x: U32)
    requires |buf.data| >= 4
    modifies buf
    ensures x == WordValue(old(buf.data)) && buf.data == old(buf.data)[4..]
  {
    x := WordValue(buf.data);
    buf.data := buf.data[4..];
  }

  /**
   * `oncrpc_iob_add_string`: the length word, the bytes up to the NUL, then
   * zeros while the position is not a multiple of four.  The padding loop
   * tests the position before it advances it, so the position ends one past
   * the padding and the returned size subtracts that one again.
   */
  method AddString(buf: IoBuffer, val: seq<Byte>) returns (size: nat)
    requires IsCString(val)
    modifies buf
    ensures buf.data == old(buf.data) + EncodeString(val)
    ensures size == |EncodeString(val)|
  {
    var _ := AddInt(buf, |val|);
    ghost var start := buf.data;
    var s := 0;
    while s < |val|
      invariant 0 <= s <= |val|
      invariant buf.data == start + val[..s]
    {
      buf.data := buf.data + [val[s]];
      s := s + 1;
    }
    assert val[..s] == val;
    var n := |val|;
    var more := s % 4 != 0;
    s := s + 1;
    while more
      invariant n + 1 <= s <= n + Pad(n) + 1
      invariant more <==> (s - 1) % 4 != 0
      invariant buf.data == start + val + Zeros(s - 1 - n)
      decreases n + Pad(n) + 1 - s
    {
      buf.data := buf.data + [0];
      more := s % 4 != 0;
      s := s + 1;
    }
    PadIsLeast(n, s - 1);
    size := s - 1 + 4;
  }

  /** `oncrpc_iob_add_intarray`: the count, then `size` words of `elements`. */
  method AddIntArray(buf: IoBuffer, size: nat, elements: seq<U32>) returns (written: nat)
    requires size <= |elements|
    modifies buf
    ensures buf.data == old(buf.data) + Word(ToU32(size)) + EncodeWords(elements[..size])
    ensures written == (size + 1) * 4
  {
    var _ := AddInt(buf, size);
    ghost var start := buf.data;
    var i := 0;
    while i < size
      invariant 0 <= i <= size
      invariant buf.data == start + EncodeWords(elements[..i])
    {
      var _ := AddInt(buf, elements[i]);
      EncodeWordsAppend(elements[..i], elements[i]);
      assert elements[..i + 1] == elements[..i] + [elements[i]];
      i := i + 1;
    }
    written := (size + 1) * 4;
  }

  /**
   * `oncrpc_iob_add_cred`: nothing for a missing buffer or credential;
   * otherwise flavor, length and, for AUTH_SYS, the system fields.  The
   * returned size is the number of bytes appended.
   */
  method AddCred(buf: IoBuffer?, cred: Option<Cred>) returns (size: nat)
    requires cred.Some? ==> Encodable(cred.value)
    requires cred.Some? && cred.value.SysCred? ==> IsCString(cred.value.hostname)
    modifies buf
    ensures buf == null || cred.None? ==> size == 0 && (buf != null ==> buf.data == old(buf.data))
    ensures buf != null && cred.Some? ==>
      buf.data == old(buf.data) + EncodeCred(cred.value) && size == |EncodeCred(cred.value)|
  {
    if buf == null || cred.None? {
      return 0;
    }
    var c := cred.value;
    ghost var start := buf.data;
    size := 0;
    var n := AddInt(buf, c.flavor);
    size := size + n;
    n := AddInt(buf, c.length);
    size := size + n;
    if c.flavor == AuthSys {
      n := AddInt(buf, c.stamp);
      size := size + n;
      n := AddString(buf, c.hostname);
      size := size + n;
      n := AddInt(buf, c.uid);
      size := size + n;
      n := AddInt(buf, c.gid);
      size := size + n;
      n := AddIntArray(buf, |c.auxGids|, c.auxGids);
      assert c.auxGids[..|c.auxGids|] == c.auxGids;
      size := size + n;
      SysLayout(start, Word(c.flavor), Word(c.length), Word(c.stamp), EncodeString(c.hostname),
                Word(c.uid), Word(c.gid), Word(ToU32(|c.auxGids|)), EncodeWords(c.auxGids));
    } else {
      assert EncodeCred(c) == Word(c.flavor) + Word(c.length) + [];
    }
  }

  /** The order in which `oncrpc_iob_add_cred` appends the parts of a credential. */
  lemma SysLayout(start: seq<Byte>, f: seq<Byte>, l: seq<Byte>, st: seq<Byte>, h: seq<Byte>,
                  u: seq<Byte>, g: seq<Byte>, k: seq<Byte>, aux: seq<Byte>)
    ensures start + f + l + st + h + u + g + k + aux
      == start + (f + l + (st + h + u + g + (k + aux)))
    ensures |f + l + (st + h + u + g + (k + aux))|
      == |f| + |l| + |st| + |h| + |u| + |g| + |k| + |aux|
  {
  }

  /** `oncrpc_iob_get_cred`: reads flavor and length and returns 8. */
  method GetCred(buf: IoBuffer) returns (cred: Cred, size: nat)
    requires |buf.data| >= 8
    modifies buf
    ensures (cred, buf.data) == ReadCredHeader(old(buf.data))
    ensures size == 8
  {
    var flavor := GetInt(buf);
    var length := GetInt(buf);
    cred := Cred(flavor, length);
    size := 8;
  }
}
