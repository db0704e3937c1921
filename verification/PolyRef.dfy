/** References to polygons: a salt, a tile and a polygon packed into 32 bits, and how salts age. */
module PolyRef {
  import opened Division

  // ---------- Field widths ----------

  /** The smallest power of two not below `v`. */
  function NextPow2(v: bv32): bv32 {
    var a := v - 1;
    var b := a | (a >> 1);
    var c := b | (b >> 2);
    var d := c | (c >> 4);
    var e := d | (d >> 8);
    (e | (e >> 16)) + 1
  }

  function Flag(on: bool, weight: bv32): bv32 { if on then weight else 0 }

  /** The position of the highest set bit. */
  function Ilog2(v: bv32): bv32 {
    var r := Flag(v > 0xffff, 16);
    var v1 := v >> r;
    var s1 := Flag(v1 > 0xff, 8);
    var v2 := v1 >> s1;
    var s2 := Flag(v2 > 0xf, 4);
    var v3 := v2 >> s2;
    var s3 := Flag(v3 > 0x3, 2);
    r | s1 | s2 | s3 | ((v3 >> s3) >> 1)
  }

  lemma NextPow2Means(v: bv32)
    requires 1 <= v <= 0x8000_0000
    ensures var p := NextPow2(v); v <= p && p & (p - 1) == 0 && p >> 1 < v
  {
  }

  lemma Ilog2OfPower(p: bv32)
    requires p != 0 && p & (p - 1) == 0
    ensures Ilog2(p) < 32 && (1 as bv32) << Ilog2(p) == p
  {
  }

  /** The width computed for `v` values is the least that can tell them apart. */
  lemma WidthMeans(v: bv32)
    requires 1 <= v <= 0x8000_0000
    ensures var w := Ilog2(NextPow2(v)); w < 32 && v <= (1 as bv32) << w && ((1 as bv32) << w) >> 1 < v
  {
    hide NextPow2, Ilog2;
    NextPow2Means(v);
    Ilog2OfPower(NextPow2(v));
  }

  /** What is left of 32 bits for the salt, at most 31; the difference is unsigned and wraps. */
  function SaltBits(tile: bv32, poly: bv32): bv32 {
    var left := 32 - tile - poly;
    if left < 31 then left else 31
  }

  const LEAST_SALT: bv32 := 10

  /**
   Initialisation refuses a mesh whose salt gets fewer than 10 bits. Tile and polygon fields of 23 to 32 bits together
   leave too little; more would wrap, which only an assertion forbids.
   */
  lemma SaltBitsExact(tile: bv32, poly: bv32)
    requires tile < 32 && poly < 32
    ensures SaltBits(tile, poly) >= LEAST_SALT <==> tile + poly <= 22 || tile + poly > 32
    ensures tile + poly <= 22 ==> SaltBits(tile, poly) == if tile + poly == 0 then 31 else 32 - (tile + poly)
  {
  }

  // ---------- Packing ----------

  function Pow2(n: nat): (r: nat)
    ensures r >= 1
  {
    if n == 0 then 1 else 2 * Pow2(n - 1)
  }

  lemma {:induction false} Pow2Add(a: nat, b: nat)
    ensures Pow2(a + b) == Pow2(a) * Pow2(b)
  {
    if a != 0 {
      Pow2Add(a - 1, b);
    }
  }

  /** How many bits each field has. */
  datatype Bits = Bits(salt: nat, tile: nat, poly: nat)

  function EncodePolyId(w: Bits, salt: nat, it: nat, ip: nat): nat {
    salt * Pow2(w.poly + w.tile) + it * Pow2(w.poly) + ip
  }

  function DecodeSalt(w: Bits, ref: nat): nat { ref / Pow2(w.poly + w.tile) % Pow2(w.salt) }

  function DecodeTile(w: Bits, ref: nat): nat { ref / Pow2(w.poly) % Pow2(w.tile) }

  function DecodePoly(w: Bits, ref: nat): nat { ref % Pow2(w.poly) }

  /** The reference is no wider than its three fields together. */
  predicate Fits(w: Bits, ref: nat) { ref < Pow2(w.salt + (w.poly + w.tile)) }

  lemma Pow2Positive(n: nat)
    ensures Pow2(n) > 0
  {
  }

  predicate Mintable(w: Bits, salt: nat, it: nat, ip: nat) {
    salt < Pow2(w.salt) && it < Pow2(w.tile) && ip < Pow2(w.poly)
  }

  lemma FieldBound(q: nat, r: nat, a: nat, b: nat)
    requires q < a && r < b
    ensures q * b + r < a * b
  {
    assert q * b <= (a - 1) * b;
  }

  /** Decoding undoes encoding. */
  lemma DecodeEncode(w: Bits, salt: nat, it: nat, ip: nat)
    requires Mintable(w, salt, it, ip)
    ensures var ref := EncodePolyId(w, salt, it, ip);
            DecodeSalt(w, ref) == salt && DecodeTile(w, ref) == it && DecodePoly(w, ref) == ip
  {
    hide Pow2;
    var s, t, p := Pow2(w.salt), Pow2(w.tile), Pow2(w.poly);
    Pow2Add(w.poly, w.tile);
    assert Pow2(w.poly + w.tile) == t * p;
    var low := it * p + ip;
    FieldBound(it, ip, t, p);
    DivMod(salt, low, t * p);
    DivMod(0, salt, s);
    Regroup(salt, it, ip, t, p);
    assert t * p == p * t;
    DivMod(salt * t + it, ip, p);
    DivMod(salt, it, t);
  }

  /** Encoding undoes decoding, on every reference that fits the fields. */
  lemma EncodeDecode(w: Bits, ref: nat)
    requires Fits(w, ref)
    ensures Mintable(w, DecodeSalt(w, ref), DecodeTile(w, ref), DecodePoly(w, ref))
    ensures EncodePolyId(w, DecodeSalt(w, ref), DecodeTile(w, ref), DecodePoly(w, ref)) == ref
  {
    hide Pow2;
    var salt, it, ip := Fields(ref, Pow2(w.tile), Pow2(w.poly));
    Assemble(w, ref, salt, it, ip);
    DecodeEncode(w, salt, it, ip);
  }

  /** Any number is made of three fields, the highest unbounded. */
  lemma Fields(ref: nat, t: nat, p: nat) returns (salt: nat, it: nat, ip: nat)
    requires t > 0 && p > 0
    ensures it < t && ip < p && ref == salt * (t * p) + (it * p + ip)
  {
    Quotient(ref, p);
    Quotient(ref / p, t);
    ip, it, salt := ref % p, ref / p % t, ref / p / t;
    Regroup(salt, it, ip, t, p);
  }

  lemma Assemble(w: Bits, ref: nat, salt: nat, it: nat, ip: nat)
    requires ref < Pow2(w.salt + (w.poly + w.tile)) && it < Pow2(w.tile) && ip < Pow2(w.poly)
    requires ref == salt * (Pow2(w.tile) * Pow2(w.poly)) + (it * Pow2(w.poly) + ip)
    ensures EncodePolyId(w, salt, it, ip) == ref && salt < Pow2(w.salt)
  {
    hide Pow2;
    var s, t, p := Pow2(w.salt), Pow2(w.tile), Pow2(w.poly);
    Pow2Add(w.poly, w.tile);
    Pow2Add(w.salt, w.poly + w.tile);
    assert t * p == p * t;
    SaltFits(salt, t * p, it * p + ip, s);
  }

  lemma Regroup(salt: nat, it: nat, ip: nat, t: nat, p: nat)
    ensures (salt * t + it) * p + ip == salt * (t * p) + (it * p + ip)
  {
    assert salt * t * p == salt * (t * p);
  }

  lemma SaltFits(q: nat, m: nat, r: nat, s: nat)
    requires q * m + r < s * m
    ensures q < s
  {
    assert (s - q) * m > 0;
  }

  /** A reference with a salt is not the null reference. */
  lemma NotNull(w: Bits, salt: nat, it: nat, ip: nat)
    ensures EncodePolyId(w, salt, it, ip) == 0 <==> salt == 0 && it == 0 && ip == 0
  {
    hide Pow2;
    assert salt > 0 ==> salt * Pow2(w.poly + w.tile) > 0;
    assert it > 0 ==> it * Pow2(w.poly) > 0;
  }

  // ---------- Salts ----------

  /** The salt a slot gets when its tile is removed: the next one, skipping 0. */
  function NextSalt(bits: nat, salt: nat): (r: nat)
    ensures bits >= 1 ==> 0 < r < Pow2(bits)
  {
    var s := (salt + 1) % Pow2(bits);
    if s == 0 then 1 else s
  }

  /** The salt after `k` removals. */
  function SaltAfter(bits: nat, salt: nat, k: nat): nat {
    if k == 0 then salt else NextSalt(bits, SaltAfter(bits, salt, k - 1))
  }

  lemma NextMod(a: nat, m: nat)
    requires m > 0
    ensures (a + 1) % m == if a % m == m - 1 then 0 else a % m + 1
  {
    Quotient(a, m);
    var q, r := a / m, a % m;
    if r == m - 1 {
      assert (q + 1) * m == q * m + m;
      DivMod(q + 1, 0, m);
    } else {
      DivMod(q, r + 1, m);
    }
  }

  lemma {:induction false} SaltCycle(bits: nat, salt: nat, k: nat)
    requires bits >= 1 && 1 <= salt < Pow2(bits)
    ensures Pow2(bits) >= 2 && SaltAfter(bits, salt, k) == 1 + (salt - 1 + k) % (Pow2(bits) - 1)
  {
    var m := Pow2(bits) - 1;
    if k == 0 {
      DivMod(0, salt - 1, m);
    } else {
      SaltCycle(bits, salt, k - 1);
      NextMod(salt - 1 + (k - 1), m);
      var s := SaltAfter(bits, salt, k - 1);
      if s == m {
        DivMod(1, 0, m + 1);
      } else {
        DivMod(0, s + 1, m + 1);
      }
    }
  }

  lemma SameRemainder(a: nat, k: nat, m: nat)
    requires a < m
    ensures (a + k) % m == a <==> k % m == 0
  {
    Quotient(k, m);
    var q, r := k / m, k % m;
    if a + r < m {
      DivMod(q, a + r, m);
    } else {
      assert (q + 1) * m == q * m + m;
      DivMod(q + 1, a + r - m, m);
    }
  }

  /**
   A removed tile's reference becomes valid again exactly when its slot has been removed a multiple of
   2^bits - 1 times; until then a later tile in the slot has another salt.
   */
  lemma SaltReturns(bits: nat, salt: nat, k: nat)
    requires bits >= 1 && 1 <= salt < Pow2(bits)
    ensures Pow2(bits) >= 2 && (SaltAfter(bits, salt, k) == salt <==> k % (Pow2(bits) - 1) == 0)
  {
    SaltCycle(bits, salt, k);
    SameRemainder(salt - 1, k, Pow2(bits) - 1);
  }
}
