/** The blob an RSA key is stored in: a header, then public exponent, private exponent and modulus, each
    as its length and its bytes, the second and third aligned to four in memory. */
module KeyBlob {
  import opened MachineInts
  import opened Options

  const WRAP_BYTES_LEN := 8

  // ---- The layout ----

  /** The lowest `count` bytes of `n`, lowest first. */
  function Bytes(n: nat, count: nat): (bytes: seq<u8>)
    ensures |bytes| == count
  {
    if count == 0 then [] else [n % 256] + Bytes(n / 256, count - 1)
  }

  function Value(bytes: seq<u8>): nat {
    if bytes == [] then 0 else bytes[0] + 256 * Value(bytes[1..])
  }

  function Power256(count: nat): nat {
    if count == 0 then 1 else 256 * Power256(count - 1)
  }

  lemma {:induction false} BytesKeepTheValue(n: nat, count: nat)
    requires n < Power256(count)
    ensures Value(Bytes(n, count)) == n
  {
    if count > 0 {
      BytesKeepTheValue(n / 256, count - 1);
      assert Bytes(n, count)[1..] == Bytes(n / 256, count - 1);
    }
  }

  lemma LengthIsKept(n: u32)
    ensures Value(Bytes(n, 4)) == n
  {
    assert Power256(1) == 256 && Power256(2) == 256 * 256 && Power256(3) == 256 * 65536 && Power256(4) == W32;
    BytesKeepTheValue(n, 4);
  }

  /** The offset, from `at` on, of the next address that is a multiple of four; `base` is the address of
      the blob. */
  function Aligned(base: nat, at: nat): (r: nat)
    ensures at <= r < at + 4
  {
    (base + at + 3) / 4 * 4 - base
  }

  /** The bounds and this say which address it is. */
  lemma AlignedIsMultiple(base: nat, at: nat)
    ensures (base + Aligned(base, at)) % 4 == 0
  {
    MultipleOfFour((base + at + 3) / 4);
  }

  lemma MultipleOfFour(q: nat)
    ensures q * 4 % 4 == 0
  {}

  /** The blob may be read at another address than it was written at, if both are aligned alike. */
  lemma AlignedAlike(base: nat, k: nat, at: nat)
    ensures Aligned(base + 4 * k, at) == Aligned(base, at)
  {
    var q := (base + at + 3) / 4;
    QuotientOfFour(q + k, base + at + 3 - 4 * q);
  }

  lemma QuotientOfFour(q: nat, r: nat)
    requires r < 4
    ensures (4 * q + r) / 4 == q
  {}

  function Reversed(s: seq<u8>): (r: seq<u8>)
    ensures |r| == |s|
  {
    if s == [] then [] else Reversed(s[1..]) + [s[0]]
  }

  lemma {:induction false} ReversedAt(s: seq<u8>, k: nat)
    requires k < |s|
    ensures Reversed(s)[k] == s[|s| - 1 - k]
  {
    if k < |s| - 1 {
      ReversedAt(s[1..], k);
    }
  }

  lemma ReversedTwice(s: seq<u8>)
    ensures Reversed(Reversed(s)) == s
  {
    forall k | 0 <= k < |s| ensures Reversed(Reversed(s))[k] == s[k] {
      ReversedAt(Reversed(s), k);
      ReversedAt(s, |s| - 1 - k);
    }
  }

  /** A public exponent of one word is stored with its bytes reversed. */
  function StoredPublic(pub: seq<u8>): (s: seq<u8>)
    ensures |s| == |pub|
  {
    if |pub| == 4 then Reversed(pub) else pub
  }

  // ---- Reading ----

  datatype Key = Key(pub: seq<u8>, pri: seq<u8>, modulus: seq<u8>)
  datatype Number = Number(bytes: seq<u8>, next: nat)

  /** The number whose length is at `at`. */
  function ReadNumber(m: seq<u8>, at: nat): Option<Number> {
    if at + 4 > |m| then None
    else
      var n := Value(m[at..at + 4]);
      if at + 4 + n > |m| then None else Some(Number(m[at + 4..at + 4 + n], at + 4 + n))
  }

  /** A reader that knows only where the blob is and how long its header is. */
  function Decode(m: seq<u8>, base: nat, header: nat): Option<Key> {
    match ReadNumber(m, header)
    case None => None
    case Some(pub) =>
      match ReadNumber(m, Aligned(base, pub.next))
      case None => None
      case Some(pri) =>
        match ReadNumber(m, Aligned(base, pri.next))
        case None => None
        case Some(modulus) => Some(Key(StoredPublic(pub.bytes), pri.bytes, modulus.bytes))
  }

  lemma DecodeElsewhere(m: seq<u8>, base: nat, k: nat, header: nat)
    ensures Decode(m, base + 4 * k, header) == Decode(m, base, header)
  {
    match ReadNumber(m, header)
    case None =>
    case Some(pub) =>
      AlignedAlike(base, k, pub.next);
      match ReadNumber(m, Aligned(base, pub.next))
      case None =>
      case Some(pri) => AlignedAlike(base, k, pri.next);
  }

  predicate Holds(m: seq<u8>, at: nat, s: seq<u8>) {
    at + |s| <= |m| && m[at..at + |s|] == s
  }

  predicate HoldsNumber(m: seq<u8>, at: nat, s: seq<u8>) {
    |s| < W32 && Holds(m, at, Bytes(|s|, 4)) && Holds(m, at + 4, s)
  }

  lemma HeldIsRead(m: seq<u8>, at: nat, s: seq<u8>)
    requires HoldsNumber(m, at, s)
    ensures ReadNumber(m, at) == Some(Number(s, at + 4 + |s|))
  {
    LengthIsKept(|s|);
  }

  // ---- Writing ----

  /** `m` with `s` put at `at`. */
  function Put(m: seq<u8>, at: nat, s: seq<u8>): (r: seq<u8>)
    requires at + |s| <= |m|
    ensures |r| == |m| && Holds(r, at, s)
  {
    m[..at] + s + m[at + |s|..]
  }

  /** Writing beside a held sequence keeps it. */
  lemma PutBeside(m: seq<u8>, at: nat, s: seq<u8>, held: nat, h: seq<u8>)
    requires at + |s| <= |m| && Holds(m, held, h)
    requires held + |h| <= at || at + |s| <= held
    ensures Holds(Put(m, at, s), held, h)
  {
    var r := Put(m, at, s);
    forall k | 0 <= k < |h| ensures r[held + k] == h[k] {
      assert m[held..held + |h|][k] == h[k];
    }
  }

  method Copy(a: array<u8>, at: nat, s: seq<u8>)
    requires at + |s| <= a.Length
    modifies a
    ensures a[..] == Put(old(a[..]), at, s)
  {
    for i := 0 to |s|
      invariant forall k :: 0 <= k < a.Length ==> a[k] == if at <= k < at + i then s[k - at] else old(a[k])
    {
      a[at + i] := s[i];
    }
  }

  method CopyReversed(a: array<u8>, at: nat, s: seq<u8>)
    requires at + |s| <= a.Length
    modifies a
    ensures a[..] == Put(old(a[..]), at, Reversed(s))
  {
    for i := 0 to |s|
      invariant forall k :: 0 <= k < a.Length ==> a[k] == if at <= k < at + i then s[|s| - (k - at) - 1] else old(a[k])
    {
      a[at + i] := s[|s| - i - 1];
    }
    forall k | 0 <= k < |s| ensures a[at + k] == Reversed(s)[k] {
      ReversedAt(s, k);
    }
  }

  function BlobLen(wrap: bool, header: nat, pub: nat, pri: nat, modulus: nat): nat {
    header + 4 * 3 + pub + pri + modulus + 12 + if wrap then WRAP_BYTES_LEN else 0
  }

  /** Where the last number ends. */
  function End(base: nat, header: nat, pub: nat, pri: nat, modulus: nat): nat {
    Aligned(base, Aligned(base, header + 4 + pub) + 4 + pri) + 4 + modulus
  }

  /** The slack of twelve bytes is never used up: alignment takes at most six of them. */
  lemma BlobFits(base: nat, wrap: bool, header: nat, pub: nat, pri: nat, modulus: nat)
    ensures var stored := if wrap then pri + WRAP_BYTES_LEN else pri;
            6 <= BlobLen(wrap, header, pub, pri, modulus) - End(base, header, pub, stored, modulus) <= 12
  {}

  lemma LowerPartKeeps(m: seq<u8>, r: seq<u8>, n: nat, at: nat, s: seq<u8>)
    requires n <= |m| && n <= |r| && m[..n] == r[..n]
    requires HoldsNumber(m, at, s) && at + 4 + |s| <= n
    ensures HoldsNumber(r, at, s)
  {
    assert m[at..at + 4] == m[..n][at..at + 4] == r[at..at + 4];
    assert m[at + 4..at + 4 + |s|] == m[..n][at + 4..at + 4 + |s|] == r[at + 4..at + 4 + |s|];
  }

  lemma PutAtStart(m: seq<u8>, s: seq<u8>)
    requires |s| <= |m|
    ensures Put(m, 0, s)[..|s|] == s
  {}

  lemma PutAbove(m: seq<u8>, at: nat, s: seq<u8>, n: nat)
    requires n <= at && at + |s| <= |m|
    ensures Put(m, at, s)[..n] == m[..n]
  {}

  method StorePublic(a: array<u8>, at: nat, pub: seq<u8>) returns (next: nat)
    requires |pub| < W32 && at + 4 + |pub| <= a.Length
    modifies a
    ensures next == at + 4 + |pub|
    ensures HoldsNumber(a[..], at, StoredPublic(pub))
    ensures a[..at] == old(a[..at])
  {
    var buffer := at;
    Copy(a, buffer, Bytes(|pub|, 4));
    PutAbove(old(a[..]), at, Bytes(|pub|, 4), at);
    ghost var m := a[..];
    buffer := buffer + 4;
    if |pub| == 4 {
      CopyReversed(a, buffer, pub);
    } else {
      Copy(a, buffer, pub);
    }
    PutAbove(m, buffer, StoredPublic(pub), at);
    PutBeside(m, buffer, StoredPublic(pub), at, Bytes(|pub|, 4));
    next := buffer + |pub|;
  }

  /** The value goes first: wrapping it is what tells its length. */
  method StorePrivate(a: array<u8>, at: nat, stored: seq<u8>) returns (next: nat)
    requires |stored| < W32 && at + 4 + |stored| <= a.Length
    modifies a
    ensures next == at + 4 + |stored|
    ensures HoldsNumber(a[..], at, stored)
    ensures a[..at] == old(a[..at])
  {
    Copy(a, at + 4, stored);
    PutAbove(old(a[..]), at + 4, stored, at);
    ghost var m := a[..];
    Copy(a, at, Bytes(|stored|, 4));
    PutAbove(m, at, Bytes(|stored|, 4), at);
    PutBeside(m, at, Bytes(|stored|, 4), at + 4, stored);
    next := at + 4 + |stored|;
  }

  method StoreModulus(a: array<u8>, at: nat, modulus: seq<u8>)
    requires |modulus| < W32 && at + 4 + |modulus| <= a.Length
    modifies a
    ensures HoldsNumber(a[..], at, modulus)
    ensures a[..at] == old(a[..at])
  {
    Copy(a, at, Bytes(|modulus|, 4));
    PutAbove(old(a[..]), at, Bytes(|modulus|, 4), at);
    ghost var m := a[..];
    Copy(a, at + 4, modulus);
    PutAbove(m, at + 4, modulus, at);
    PutBeside(m, at + 4, modulus, at, Bytes(|modulus|, 4));
  }

  lemma PublicIsRestored(pub: seq<u8>)
    ensures StoredPublic(StoredPublic(pub)) == pub
  {
    ReversedTwice(pub);
  }

  /** What the three numbers at their places decode to. */
  lemma HeldIsDecoded(m: seq<u8>, base: nat, first: nat, pub: seq<u8>, second: nat, stored: seq<u8>, third: nat,
                      modulus: seq<u8>)
    requires second == Aligned(base, first + 4 + |pub|) && third == Aligned(base, second + 4 + |stored|)
    requires ReadNumber(m, first) == Some(Number(pub, first + 4 + |pub|))
    requires ReadNumber(m, second) == Some(Number(stored, second + 4 + |stored|))
    requires ReadNumber(m, third) == Some(Number(modulus, third + 4 + |modulus|))
    ensures Decode(m, base, first) == Some(Key(StoredPublic(pub), stored, modulus))
  {}

  lemma NumbersAreDecoded(m: seq<u8>, base: nat, first: nat, pub: seq<u8>, second: nat, stored: seq<u8>, third: nat,
                          modulus: seq<u8>)
    requires second == Aligned(base, first + 4 + |pub|) && third == Aligned(base, second + 4 + |stored|)
    requires HoldsNumber(m, first, StoredPublic(pub))
    requires HoldsNumber(m, second, stored) && HoldsNumber(m, third, modulus)
    ensures Decode(m, base, first) == Some(Key(pub, stored, modulus))
  {
    HeldIsRead(m, first, StoredPublic(pub));
    HeldIsRead(m, second, stored);
    HeldIsRead(m, third, modulus);
    HeldIsDecoded(m, base, first, StoredPublic(pub), second, stored, third, modulus);
    PublicIsRestored(pub);
  }

  /** Writes that go upwards keep what was written below. */
  lemma ThreeHeld(m0: seq<u8>, m1: seq<u8>, m2: seq<u8>, m3: seq<u8>, first: nat, pub: seq<u8>, second: nat,
                  stored: seq<u8>, third: nat, modulus: seq<u8>)
    requires first + 4 + |pub| <= second && second + 4 + |stored| <= third <= |m0| == |m1| == |m2| == |m3|
    requires m1[..first] == m0[..first] && m2[..second] == m1[..second] && m3[..third] == m2[..third]
    requires HoldsNumber(m1, first, pub) && HoldsNumber(m2, second, stored) && HoldsNumber(m3, third, modulus)
    ensures HoldsNumber(m3, first, pub) && HoldsNumber(m3, second, stored) && m3[..first] == m0[..first]
  {
    LowerPartKeeps(m1, m2, second, first, pub);
    LowerPartKeeps(m2, m3, third, first, pub);
    LowerPartKeeps(m2, m3, third, second, stored);
    PrefixOfPrefix(m1, m2, second, first);
    PrefixOfPrefix(m2, m3, third, first);
  }

  /** The writes of the three numbers. */
  method PlaceNumbers(a: array<u8>, base: nat, first: nat, pub: seq<u8>, stored: seq<u8>, modulus: seq<u8>)
    returns (ghost second: nat, ghost third: nat)
    requires |pub| < W32 && |stored| < W32 && |modulus| < W32
    requires first + 12 + |pub| + |stored| + |modulus| + 6 <= a.Length
    modifies a
    ensures second == Aligned(base, first + 4 + |pub|) && third == Aligned(base, second + 4 + |stored|)
    ensures HoldsNumber(a[..], first, StoredPublic(pub))
    ensures HoldsNumber(a[..], second, stored)
    ensures HoldsNumber(a[..], third, modulus)
    ensures a[..first] == old(a[..first])
  {
    ghost var m0 := a[..];
    var buffer := StorePublic(a, first, pub);
    buffer := Aligned(base, buffer);
    ghost var m1 := a[..];
    second := buffer;
    buffer := StorePrivate(a, buffer, stored);
    ghost var m2 := a[..];
    buffer := Aligned(base, buffer);
    third := buffer;
    StoreModulus(a, buffer, modulus);
    ThreeHeld(m0, m1, m2, a[..], first, StoredPublic(pub), second, stored, third, modulus);
  }

  /** The three numbers one after the other, each at the place where the one before ends, aligned. */
  method StoreNumbers(a: array<u8>, base: nat, first: nat, pub: seq<u8>, stored: seq<u8>, modulus: seq<u8>)
    returns (ghost second: nat, ghost third: nat)
    requires |pub| < W32 && |stored| < W32 && |modulus| < W32
    requires first + 12 + |pub| + |stored| + |modulus| + 6 <= a.Length
    modifies a
    ensures second == Aligned(base, first + 4 + |pub|) && third == Aligned(base, second + 4 + |stored|)
    ensures (base + second) % 4 == 0 && (base + third) % 4 == 0
    ensures HoldsNumber(a[..], first, StoredPublic(pub))
    ensures HoldsNumber(a[..], second, stored)
    ensures HoldsNumber(a[..], third, modulus)
    ensures a[..first] == old(a[..first])
  {
    second, third := PlaceNumbers(a, base, first, pub, stored, modulus);
    AlignedIsMultiple(base, first + 4 + |pub|);
    AlignedIsMultiple(base, second + 4 + |stored|);
  }

  lemma PrefixOfPrefix(m: seq<u8>, r: seq<u8>, n: nat, k: nat)
    requires k <= n <= |m| && n <= |r| && m[..n] == r[..n]
    ensures m[..k] == r[..k]
  {
    assert m[..k] == m[..n][..k] && r[..k] == r[..n][..k];
  }

  function LowestFirst(b0: int, b1: int, b2: int, b3: int): int {
    b0 + 0x100 * b1 + 0x1_0000 * b2 + 0x100_0000 * b3
  }

  function ByteOf(s: seq<u8>, k: nat, backwards: bool): u8
    requires k < |s|
  {
    if backwards then s[|s| - 1 - k] else s[k]
  }

  /** At `at` there are the four bytes of a length, lowest first, and then so many bytes: those of `s`, or
      those of `s` backwards. */
  predicate NumberAt(m: seq<u8>, at: nat, s: seq<u8>, backwards: bool) {
    && at + 4 + |s| <= |m|
    && LowestFirst(m[at], m[at + 1], m[at + 2], m[at + 3]) == |s|
    && forall k :: 0 <= k < |s| ==> m[at + 4 + k] == ByteOf(s, k, backwards)
  }

  lemma ValueOfFour(b: seq<u8>)
    requires |b| == 4
    ensures Value(b) == LowestFirst(b[0], b[1], b[2], b[3])
  {
    assert b[1..][1..] == b[2..] && b[2..][1..] == b[3..] && b[3..][1..] == [];
    assert Value(b[3..]) == b[3] as int && Value(b[2..]) == LowestFirst(b[2], b[3], 0, 0);
  }

  lemma HeldNumberAt(m: seq<u8>, at: nat, s: seq<u8>)
    requires HoldsNumber(m, at, s)
    ensures NumberAt(m, at, s, false)
  {
    LengthIsKept(|s|);
    ValueOfFour(m[at..at + 4]);
    assert forall k :: 0 <= k < |s| ==> m[at + 4..at + 4 + |s|][k] == s[k];
  }

  lemma BackwardsAt(m: seq<u8>, at: nat, s: seq<u8>, r: seq<u8>)
    requires |r| == |s| && forall k :: 0 <= k < |s| ==> r[k] == s[|s| - 1 - k]
    requires NumberAt(m, at, r, false)
    ensures NumberAt(m, at, s, true)
  {
    assert forall k :: 0 <= k < |s| ==> ByteOf(s, k, true) == ByteOf(r, k, false);
  }

  lemma HeldPublicAt(m: seq<u8>, at: nat, pub: seq<u8>)
    requires HoldsNumber(m, at, StoredPublic(pub))
    ensures NumberAt(m, at, pub, |pub| == 4)
  {
    HeldNumberAt(m, at, StoredPublic(pub));
    if |pub| == 4 {
      var r := Reversed(pub);
      forall k | 0 <= k < |pub| ensures r[k] == pub[|pub| - 1 - k] {
        ReversedAt(pub, k);
      }
      BackwardsAt(m, at, pub, r);
    }
  }

  method StoreKey(a: array<u8>, base: nat, first: nat, pub: seq<u8>, stored: seq<u8>, modulus: seq<u8>)
    returns (ghost second: nat, ghost third: nat)
    requires |pub| < W32 && |stored| < W32 && |modulus| < W32
    requires first + 12 + |pub| + |stored| + |modulus| + 6 <= a.Length
    modifies a
    ensures NumberAt(a[..], first, pub, |pub| == 4)
    ensures NumberAt(a[..], second, stored, false) && NumberAt(a[..], third, modulus, false)
    ensures first + 4 + |pub| <= second < first + 8 + |pub| && (base + second) % 4 == 0
    ensures second + 4 + |stored| <= third < second + 8 + |stored| && (base + third) % 4 == 0
    ensures Decode(a[..], base, first) == Some(Key(pub, stored, modulus))
    ensures a[..first] == old(a[..first])
  {
    second, third := StoreNumbers(a, base, first, pub, stored, modulus);
    HeldPublicAt(a[..], first, pub);
    HeldNumberAt(a[..], second, stored);
    HeldNumberAt(a[..], third, modulus);
    NumbersAreDecoded(a[..], base, first, pub, second, stored, third, modulus);
  }

  /** rsa_key_generate_and_store, from the lengths to the finished blob.  `base` is what malloc answers;
      `wrapped` is the private exponent under the key-encryption key, eight bytes longer (section 2.2.1
      of RFC 3394).  No write leaves the buffer, each number is where the one before ends or at the next
      multiple of four, and any reader with the blob aligned alike recovers the three numbers. */
  method Store(base: nat, wrap: bool, header: seq<u8>, pub: seq<u8>, pri: seq<u8>, wrapped: seq<u8>, modulus: seq<u8>)
    returns (a: array<u8>, ghost second: nat, ghost third: nat)
    requires |pub| < W32 && |pri| + WRAP_BYTES_LEN < W32 && |modulus| < W32
    requires |wrapped| == |pri| + WRAP_BYTES_LEN
    ensures fresh(a) && a.Length == BlobLen(wrap, |header|, |pub|, |pri|, |modulus|)
    ensures a[..|header|] == header
    ensures NumberAt(a[..], |header|, pub, |pub| == 4)
    ensures NumberAt(a[..], second, if wrap then wrapped else pri, false) && NumberAt(a[..], third, modulus, false)
    ensures |header| + 4 + |pub| <= second < |header| + 8 + |pub| && (base + second) % 4 == 0
    ensures var end := second + 4 + if wrap then |wrapped| else |pri|;
            end <= third < end + 4 && (base + third) % 4 == 0
    ensures Decode(a[..], base, |header|) == Some(Key(pub, if wrap then wrapped else pri, modulus))
  {
    var stored := if wrap then wrapped else pri;
    var buf_len := |header| + 4 * 3 + |pub| + |pri| + |modulus| + 12;
    if wrap {
      buf_len := buf_len + WRAP_BYTES_LEN;
    }
    a := new u8[buf_len];
    ghost var blank := a[..];
    Copy(a, 0, header);
    PutAtStart(blank, header);
    second, third := StoreKey(a, base, |header|, pub, stored, modulus);
  }
}
