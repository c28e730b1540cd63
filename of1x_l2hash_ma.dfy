/**
 * Pearson hashing of the L2 hash matching algorithm (`l2hash_ht_hash64` and
 * `l2hash_ht_hash96`).  Each routine starts from hash 0 and replaces the
 * 16-bit hash, once per key byte, by `T[hash ^ (L2HASH_MAX_ENTRIES & key[i])]`,
 * over the first 8 (resp. 10) bytes of the key.  The table `T` is the
 * external array `l2hash_ht_T` and is a parameter here; its contents are not
 * part of the model.  A read outside `T` is undefined behaviour in C and is
 * the result `None` here.
 */
module L2Hash {
  import opened RoflTypes

  /** `L2HASH_MAX_ENTRIES`, the number of elements of `l2hash_ht_T`. */
  const L2HASH_MAX_ENTRIES: nat := 0xFFFF

  type byte = bv8

  /**
   * `L2HASH_MAX_ENTRIES & key[i]`: the key byte is a C `char`, promoted to a
   * 32-bit `int` (sign-extended when the platform's `char` is signed) and then
   * masked with 0xFFFF.
   */
  function Lane(b: byte, signedChar: bool): (v: bv16)
    ensures v == if signedChar && b >= 0x80 then 0xFF00 | b as bv16 else b as bv16
  {
    var promoted: bv32 := if signedChar && b >= 0x80 then 0xFFFF_FF00 | b as bv32 else b as bv32;
    (promoted & 0xFFFF) as bv16
  }

  /** The table index `hash ^ lane` of one step. */
  function Index(h: bv16, lane: bv16): nat
  {
    (h ^ lane) as nat
  }

  /** One step `hash = l2hash_ht_T[hash ^ (L2HASH_MAX_ENTRIES & b)]`; `None` when the index is outside `T`. */
  function Step(T: seq<bv16>, h: bv16, b: byte, signedChar: bool): Option<bv16>
  {
    var i := Index(h, Lane(b, signedChar));
    if i < |T| then Some(T[i]) else None
  }

  /** The left fold of `Step` over `bytes`, starting from hash `start`. */
  function Fold(T: seq<bv16>, start: bv16, bytes: seq<byte>, signedChar: bool): Option<bv16>
    decreases |bytes|
  {
    if bytes == [] then Some(start)
    else match Fold(T, start, bytes[..|bytes| - 1], signedChar)
      case None => None
      case Some(h) => Step(T, h, bytes[|bytes| - 1], signedChar)
  }

  /** Continues a fold that has reached `h` (or has already read outside `T`). */
  function Resume(T: seq<bv16>, h: Option<bv16>, bytes: seq<byte>, signedChar: bool): Option<bv16>
  {
    match h
    case None => None
    case Some(x) => Fold(T, x, bytes, signedChar)
  }

  /** What `l2hash_ht_hash64` computes: the fold over `key[0..7]`. */
  function Hash64Spec(T: seq<bv16>, key: seq<byte>, signedChar: bool): Option<bv16>
    requires |key| >= 8
  {
    Fold(T, 0, key[..8], signedChar)
  }

  /** What `l2hash_ht_hash96` computes: the fold over `key[0..9]`. */
  function Hash96Spec(T: seq<bv16>, key: seq<byte>, signedChar: bool): Option<bv16>
    requires |key| >= 10
  {
    Fold(T, 0, key[..10], signedChar)
  }

  /**
   * The hash is replaced outright at each step, so a fold over `a + b` is the
   * fold over `a` followed by a fold over `b` started from the hash reached
   * after `a`: nothing but that one 16-bit value carries over.
   */
  lemma {:induction false} FoldSplit(T: seq<bv16>, start: bv16, a: seq<byte>, b: seq<byte>, signedChar: bool)
    ensures Fold(T, start, a + b, signedChar) == Resume(T, Fold(T, start, a, signedChar), b, signedChar)
    decreases |b|
  {
    if b == [] {
      assert a + b == a;
    } else {
      var b' := b[..|b| - 1];
      assert (a + b)[..|a + b| - 1] == a + b';
      assert (a + b)[|a + b| - 1] == b[|b| - 1];
      FoldSplit(T, start, a, b', signedChar);
    }
  }

  /** After at least one step, a defined hash is an element of `T`. */
  lemma FoldValueInTable(T: seq<bv16>, start: bv16, bytes: seq<byte>, signedChar: bool)
    requires bytes != []
    ensures Fold(T, start, bytes, signedChar).Some? ==> Fold(T, start, bytes, signedChar).value in T
  {
  }

  /** `l2hash_ht_hash64`: eight unrolled steps, written as a loop over `key`; `size` is not read. */
  method Hash64(T: seq<bv16>, key: seq<byte>, size: uint32, signedChar: bool) returns (r: Option<bv16>)
    requires |key| >= 8
    ensures r == Hash64Spec(T, key, signedChar)
    ensures r.Some? ==> r.value in T
  {
    r := HashPrefix(T, key, 8, signedChar);
  }

  /** `l2hash_ht_hash96`: the same steps over ten bytes; `size` is not read. */
  method Hash96(T: seq<bv16>, key: seq<byte>, size: uint32, signedChar: bool) returns (r: Option<bv16>)
    requires |key| >= 10
    ensures r == Hash96Spec(T, key, signedChar)
    ensures r.Some? ==> r.value in T
  {
    r := HashPrefix(T, key, 10, signedChar);
  }

  /** The loop shared by both routines: `hash` starts at 0 and is overwritten once per byte of `key[..n]`. */
  method HashPrefix(T: seq<bv16>, key: seq<byte>, n: nat, signedChar: bool) returns (r: Option<bv16>)
    requires 0 < n <= |key|
    ensures r == Fold(T, 0, key[..n], signedChar)
    ensures r.Some? ==> r.value in T
  {
    var hash: bv16 := 0;
    var i := 0;
    while i < n
      invariant 0 <= i <= n
      invariant Fold(T, 0, key[..i], signedChar) == Some(hash)
      invariant i > 0 ==> hash in T
    {
      var index := Index(hash, Lane(key[i], signedChar));
      assert key[..i + 1][..i] == key[..i];
      if index >= |T| {
        assert Fold(T, 0, key[..i + 1], signedChar) == None;
        FoldSplit(T, 0, key[..i + 1], key[i + 1..n], signedChar);
        assert key[..i + 1] + key[i + 1..n] == key[..n];
        return None;
      }
      hash := T[index];
      i := i + 1;
    }
    r := Some(hash);
  }

  /** Bytes beyond the eighth, and `size`, have no influence on `l2hash_ht_hash64`. */
  lemma Hash64ReadsFirstEightBytes(T: seq<bv16>, k1: seq<byte>, k2: seq<byte>, signedChar: bool)
    requires |k1| >= 8 && |k2| >= 8
    requires forall i :: 0 <= i < 8 ==> k1[i] == k2[i]
    ensures Hash64Spec(T, k1, signedChar) == Hash64Spec(T, k2, signedChar)
  {
    assert k1[..8] == k2[..8];
  }

  /** `l2hash_ht_hash96(key)` is `l2hash_ht_hash64(key)` followed by two more steps, on `key[8]` and `key[9]`. */
  lemma Hash96ExtendsHash64(T: seq<bv16>, key: seq<byte>, signedChar: bool)
    requires |key| >= 10
    ensures Hash96Spec(T, key, signedChar) ==
      match Hash64Spec(T, key, signedChar)
      case None => None
      case Some(h) =>
        match Step(T, h, key[8], signedChar)
        case None => None
        case Some(h') => Step(T, h', key[9], signedChar)
  {
    FoldSplit(T, 0, key[..8], key[8..10], signedChar);
    assert key[..8] + key[8..10] == key[..10];
    var h64 := Hash64Spec(T, key, signedChar);
    if h64.Some? {
      var tail := key[8..10];
      assert tail[..|tail| - 1] == [key[8]] && tail[|tail| - 1] == key[9];
      assert [key[8]][..0] == [];
      assert Fold(T, h64.value, [key[8]], signedChar) == Step(T, h64.value, key[8], signedChar);
    }
  }

  /**
   * With an unsigned `char` and a table whose values stay below 0xFF00, every
   * index `hash ^ key[i]` keeps the high byte of `hash`, so it stays below
   * 0xFF00 and inside `T`: the fold never reads past the table.
   */
  lemma {:induction false} UnsignedCharBoundedTableStaysInside(T: seq<bv16>, start: bv16, bytes: seq<byte>)
    requires |T| == L2HASH_MAX_ENTRIES
    requires start < 0xFF00
    requires forall i :: 0 <= i < |T| ==> T[i] < 0xFF00
    ensures Fold(T, start, bytes, false).Some?
    ensures Fold(T, start, bytes, false).value < 0xFF00
    decreases |bytes|
  {
    if bytes != [] {
      UnsignedCharBoundedTableStaysInside(T, start, bytes[..|bytes| - 1]);
      var h := Fold(T, start, bytes[..|bytes| - 1], false).value;
      IndexKeepsHighByte(h, bytes[|bytes| - 1]);
    }
  }

  lemma IndexKeepsHighByte(h: bv16, b: byte)
    requires h < 0xFF00
    ensures h ^ Lane(b, false) < 0xFF00
  {
  }

  /**
   * With a signed `char`, a key starting with byte 0xFF (the first byte of the
   * broadcast MAC address) widens to -1 and masks to 0xFFFF, so the first
   * index is 0 ^ 0xFFFF = 0xFFFF: one past the last element of `T`.
   */
  lemma BroadcastKeyReadsPastTable(T: seq<bv16>, key: seq<byte>)
    requires |T| == L2HASH_MAX_ENTRIES
    requires |key| >= 10 && key[0] == 0xFF
    ensures Hash64Spec(T, key, true) == None
    ensures Hash96Spec(T, key, true) == None
  {
    assert Index(0, Lane(0xFF, true)) == 0xFFFF by {
      assert (0 as bv16) ^ (0xFFFF as bv16) == 0xFFFF;
    }
    assert key[..1][..0] == [];
    assert Fold(T, 0, key[..1], true) == None;
    FoldSplit(T, 0, key[..1], key[1..8], true);
    assert key[..1] + key[1..8] == key[..8];
    FoldSplit(T, 0, key[..1], key[1..10], true);
    assert key[..1] + key[1..10] == key[..10];
  }

  /** With one element per 16-bit value (0x10000 elements), every index lies inside `T`. */
  lemma {:induction false} FullTableFoldDefined(T: seq<bv16>, start: bv16, bytes: seq<byte>, signedChar: bool)
    requires |T| == L2HASH_MAX_ENTRIES + 1
    ensures Fold(T, start, bytes, signedChar).Some?
    decreases |bytes|
  {
    if bytes != [] {
      FullTableFoldDefined(T, start, bytes[..|bytes| - 1], signedChar);
    }
  }

  /**
   * The evidently intended `l2hash_ht_hash64`: over a table with an element
   * for every 16-bit index, the hash is always defined, whatever the key and
   * the signedness of `char`.
   */
  function Hash64FullTable(T: seq<bv16>, key: seq<byte>, signedChar: bool): (h: bv16)
    requires |T| == L2HASH_MAX_ENTRIES + 1
    requires |key| >= 8
    ensures Hash64Spec(T, key, signedChar) == Some(h)
    ensures h in T
  {
    FullTableFoldDefined(T, 0, key[..8], signedChar);
    FoldValueInTable(T, 0, key[..8], signedChar);
    Fold(T, 0, key[..8], signedChar).value
  }
}
