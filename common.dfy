/**
 * Shared constants, the key codec and the id-line parser.
 *
 * Keys of the history bucket are ids written as 8 big-endian bytes, so that the
 * bucket's byte-lexicographic key order is the numeric order of the ids.
 */
module Common {
  import opened Errors

  type uint8 = x: int | 0 <= x < 0x100
  type uint64 = x: int | 0 <= x < 0x1_0000_0000_0000_0000

  const U64_MAX: uint64 := 0xFFFF_FFFF_FFFF_FFFF

  /** Largest payload `store` accepts, in bytes. */
  const MAX_SIZE: nat := 5 * 1_000_000
  /** Separator between the id and the preview in a listed line. */
  const FIELD_SEP: string := "\t"

  const NOT_PREFIXED: string := "input not prefixed with id"
  const BAD_ID: string := "converting id"

  function Min(a: nat, b: nat): nat {
    if a <= b then a else b
  }

  /** The prefix of full length is the whole sequence. */
  lemma FullPrefix<T>(s: seq<T>)
    ensures s[..|s|] == s
  {
  }

  /** A non-empty prefix is the one before it plus its last element. */
  lemma PrefixSnoc<T>(s: seq<T>, n: nat)
    requires 0 < n <= |s|
    ensures s[..n - 1] + [s[n - 1]] == s[..n]
  {
  }

  // ---------------------------------------------------------------------------
  // Big-endian key codec
  // ---------------------------------------------------------------------------

  function Pow256(n: nat): (r: nat)
    ensures r > 0
  {
    if n == 0 then 1 else 256 * Pow256(n - 1)
  }

  /**
   * `itob`: the 8 bytes `BigEndian::write_u64` stores, byte i being v shifted
   * right by 8 * (7 - i) bits and truncated to 8 bits.
   */
  function Itob(v: uint64): (b: seq<uint8>)
    ensures |b| == 8
  {
    seq(8, i requires 0 <= i < 8 => v / Pow256(7 - i) % 256)
  }

  /** The n lowest-order bytes of v, most significant first. */
  function BeBytes(v: nat, n: nat): (b: seq<uint8>)
    ensures |b| == n
  {
    if n == 0 then [] else BeBytes(v / 256, n - 1) + [v % 256]
  }

  /** `u64_to_be_bytes`: the big-endian representation `u64::to_be_bytes` produces. */
  function U64ToBeBytes(v: uint64): (b: seq<uint8>)
    ensures |b| == 8 && BeValue(b) == v
  {
    Pow256Eight();
    BeRoundTrip(v, 8);
    BeBytes(v, 8)
  }

  /** The number whose big-endian representation is b. */
  function BeValue(b: seq<uint8>): (v: nat)
    ensures v < Pow256(|b|)
  {
    if b == [] then 0 else BeValue(b[..|b| - 1]) * 256 + b[|b| - 1]
  }

  /** `btoi`: `BigEndian::read_u64`, which reads the first 8 bytes and panics on a shorter slice. */
  function Btoi(b: seq<uint8>): (r: uint64)
    requires |b| >= 8
    ensures U64ToBeBytes(r) == b[..8]
  {
    Pow256Eight();
    BeValueRoundTrip(b[..8]);
    BeValue(b[..8])
  }

  lemma Pow256Eight()
    ensures Pow256(8) == 0x1_0000_0000_0000_0000
  {
    assert Pow256(4) == 0x1_0000_0000;
  }

  lemma MulDistributes(b: int, x: int, y: int)
    ensures b * (x + y) == b * x + b * y
  {
  }

  lemma MulAssociates(b: int, c: int, d: int)
    ensures b * (c * d) == (b * c) * d
  {
  }

  lemma MulMonotone(b: nat, x: int, y: int)
    requires x <= y
    ensures b * x <= b * y
  {
    MulDistributes(b, x, y - x);
  }

  lemma DivDiv(a: nat, b: nat, c: nat)
    requires b > 0 && c > 0
    ensures a / b / c == a / (b * c)
  {
    var q, r := a / b, a % b;
    var q2, r2 := q / c, q % c;
    MulDistributes(b, c * q2, r2);
    MulAssociates(b, c, q2);
    assert a == (b * c) * q2 + (b * r2 + r);
    MulMonotone(b, r2, c - 1);
    MulDistributes(b, c, -1);
    assert b * r2 + r < b * c;
    DivUnique(a, b * c, q2, b * r2 + r);
  }

  lemma DivUnique(a: int, d: int, q: int, r: int)
    requires d > 0 && a == d * q + r && 0 <= r < d
    ensures a / d == q && a % d == r
  {
    var q', r' := a / d, a % d;
    assert d * (q - q') == r' - r;
    assert q - q' >= 1 ==> d * (q - q') >= d;
    assert q - q' <= -1 ==> d * (q - q') <= -d;
  }

  /** Byte i of the n-byte representation of v is v shifted right by 8 * (n - 1 - i) bits, mod 256. */
  lemma {:induction false} BeBytesAt(v: nat, n: nat, i: nat)
    requires i < n
    ensures BeBytes(v, n)[i] == v / Pow256(n - 1 - i) % 256
  {
    if i < n - 1 {
      BeBytesAt(v / 256, n - 1, i);
      DivDiv(v, 256, Pow256(n - 2 - i));
    }
  }

  /** `itob(v)` and `u64_to_be_bytes(v)` write the same 8 bytes. */
  lemma ItobIsBeBytes(v: uint64)
    ensures Itob(v) == U64ToBeBytes(v)
  {
    forall i | 0 <= i < 8
      ensures Itob(v)[i] == U64ToBeBytes(v)[i]
    {
      BeBytesAt(v, 8, i);
    }
  }

  lemma BeValueStep(v: nat, n: nat)
    requires n > 0
    ensures BeValue(BeBytes(v, n)) == BeValue(BeBytes(v / 256, n - 1)) * 256 + v % 256
  {
    var b := BeBytes(v, n);
    assert b[..n - 1] == BeBytes(v / 256, n - 1);
  }

  lemma DivMod256(v: nat)
    ensures (v / 256) * 256 + v % 256 == v
  {
  }

  lemma ShiftBelow(v: nat, n: nat)
    requires n > 0 && v < Pow256(n)
    ensures v / 256 < Pow256(n - 1)
  {
  }

  lemma {:induction false} BeRoundTrip(v: nat, n: nat)
    requires v < Pow256(n)
    ensures BeValue(BeBytes(v, n)) == v
  {
    if n > 0 {
      BeValueStep(v, n);
      ShiftBelow(v, n);
      BeRoundTrip(v / 256, n - 1);
      DivMod256(v);
    }
  }

  lemma {:induction false} BeValueRoundTrip(b: seq<uint8>)
    ensures BeBytes(BeValue(b), |b|) == b
  {
    if b != [] {
      var p := b[..|b| - 1];
      BeValueRoundTrip(p);
      assert BeValue(b) / 256 == BeValue(p);
      assert b == p + [b[|b| - 1]];
    }
  }

  /** `btoi(itob(v)) == v` for every 64-bit v. */
  lemma ItobRoundTrip(v: uint64)
    ensures Btoi(Itob(v)) == v
  {
    ItobIsBeBytes(v);
    Pow256Eight();
    BeRoundTrip(v, 8);
    assert Itob(v)[..8] == Itob(v);
  }

  /** Every 8-byte key is the `itob` image of the id `btoi` reads from it. */
  lemma BtoiRoundTrip(b: seq<uint8>)
    requires |b| == 8
    ensures Itob(Btoi(b)) == b
  {
    assert b[..8] == b;
    BeValueRoundTrip(b);
    ItobIsBeBytes(Btoi(b));
  }

  // ---------------------------------------------------------------------------
  // Byte-lexicographic key order (the order of the bucket's cursor)
  // ---------------------------------------------------------------------------

  /** a sorts strictly before b, comparing bytes left to right; a proper prefix sorts first. */
  predicate LexLess(a: seq<uint8>, b: seq<uint8>) {
    if a == [] then b != []
    else b != [] && (a[0] < b[0] || (a[0] == b[0] && LexLess(a[1..], b[1..])))
  }

  lemma {:induction false} LexIrreflexive(a: seq<uint8>)
    ensures !LexLess(a, a)
  {
    if a != [] {
      LexIrreflexive(a[1..]);
    }
  }

  lemma {:induction false} LexTransitive(a: seq<uint8>, b: seq<uint8>, c: seq<uint8>)
    requires LexLess(a, b) && LexLess(b, c)
    ensures LexLess(a, c)
  {
    if a != [] && a[0] == b[0] && b[0] == c[0] {
      LexTransitive(a[1..], b[1..], c[1..]);
    }
  }

  lemma LexAsymmetric(a: seq<uint8>, b: seq<uint8>)
    ensures !(LexLess(a, b) && LexLess(b, a))
  {
    if LexLess(a, b) && LexLess(b, a) {
      LexTransitive(a, b, a);
      LexIrreflexive(a);
    }
  }

  lemma {:induction false} LexTotal(a: seq<uint8>, b: seq<uint8>)
    ensures a == b || LexLess(a, b) || LexLess(b, a)
  {
    if a != [] && b != [] && a[0] == b[0] {
      LexTotal(a[1..], b[1..]);
      if a[1..] == b[1..] {
        assert a == [a[0]] + a[1..] && b == [b[0]] + b[1..];
      }
    }
  }

  /** Appending one byte to each of two equally long keys: the prefixes decide, then the new bytes. */
  lemma {:induction false} LexSnoc(x: seq<uint8>, y: seq<uint8>, a: uint8, b: uint8)
    requires |x| == |y|
    ensures LexLess(x + [a], y + [b]) <==> LexLess(x, y) || (x == y && a < b)
  {
    if x != [] {
      assert (x + [a])[1..] == x[1..] + [a];
      assert (y + [b])[1..] == y[1..] + [b];
      LexSnoc(x[1..], y[1..], a, b);
      assert x == y <==> x[0] == y[0] && x[1..] == y[1..] by {
        assert x == [x[0]] + x[1..] && y == [y[0]] + y[1..];
      }
    }
  }

  lemma {:induction false} BeBytesOrder(v: nat, w: nat, n: nat)
    requires v < Pow256(n) && w < Pow256(n)
    ensures v < w <==> LexLess(BeBytes(v, n), BeBytes(w, n))
  {
    if n == 0 {
      assert BeBytes(v, n) == [] == BeBytes(w, n);
    } else {
      BeBytesOrder(v / 256, w / 256, n - 1);
      LexSnoc(BeBytes(v / 256, n - 1), BeBytes(w / 256, n - 1), v % 256, w % 256);
      if BeBytes(v / 256, n - 1) == BeBytes(w / 256, n - 1) {
        BeRoundTrip(v / 256, n - 1);
        BeRoundTrip(w / 256, n - 1);
      }
    }
  }

  /** `itob` is order-preserving: a < b exactly when itob(a) sorts before itob(b); it is also injective. */
  lemma ItobOrder(a: uint64, b: uint64)
    ensures a < b <==> LexLess(Itob(a), Itob(b))
    ensures a == b <==> Itob(a) == Itob(b)
  {
    ItobIsBeBytes(a);
    ItobIsBeBytes(b);
    Pow256Eight();
    BeBytesOrder(a, b, 8);
    ItobRoundTrip(a);
    ItobRoundTrip(b);
  }

  // ---------------------------------------------------------------------------
  // Decimal ids
  // ---------------------------------------------------------------------------

  predicate IsDigit(c: char) {
    '0' <= c <= '9'
  }

  predicate AllDigits(s: string) {
    forall i :: 0 <= i < |s| ==> IsDigit(s[i])
  }

  function DigitChar(d: nat): (c: char)
    requires d < 10
    ensures IsDigit(c) && c as int - '0' as int == d
  {
    ('0' as int + d) as char
  }

  /** The decimal text `format!("{}", n)` writes. */
  function Decimal(n: nat): (s: string)
    ensures s != [] && AllDigits(s)
  {
    if n < 10 then [DigitChar(n)] else Decimal(n / 10) + [DigitChar(n % 10)]
  }

  /** The value of a string of decimal digits. */
  function DigitsValue(s: string): nat
    requires AllDigits(s)
  {
    if s == [] then 0 else DigitsValue(s[..|s| - 1]) * 10 + (s[|s| - 1] as int - '0' as int)
  }

  /**
   * `str::parse::<u64>`: an optional leading '+', then one or more ASCII
   * digits whose value fits in 64 bits; anything else (a sign alone, a
   * space, a newline, an overflow) is rejected.
   */
  function ParseU64(s: string): (r: Option<uint64>)
    ensures r.Some? ==> forall i :: 0 <= i < |s| ==> IsDigit(s[i]) || (i == 0 && s[i] == '+')
  {
    var digits := if |s| > 0 && s[0] == '+' then s[1..] else s;
    if digits == [] || !AllDigits(digits) then None
    else if DigitsValue(digits) < 0x1_0000_0000_0000_0000 then Some(DigitsValue(digits))
    else None
  }

  lemma {:induction false} DecimalValue(n: nat)
    ensures DigitsValue(Decimal(n)) == n
  {
    if n >= 10 {
      var s := Decimal(n);
      assert s[..|s| - 1] == Decimal(n / 10);
      DecimalValue(n / 10);
    }
  }

  /** Parsing the decimal text of n gives n back exactly when n fits in 64 bits. */
  lemma ParseDecimal(n: nat)
    ensures ParseU64(Decimal(n)) == if n < 0x1_0000_0000_0000_0000 then Some(n) else None
  {
    DecimalValue(n);
    assert Decimal(n)[0] != '+';
  }

  // ---------------------------------------------------------------------------
  // cut and extract_id
  // ---------------------------------------------------------------------------

  /** `str::find` for one character: the index of its first occurrence. */
  function Find(s: string, c: char): (r: Option<nat>)
    ensures r.Some? ==> r.value < |s| && s[r.value] == c && c !in s[..r.value]
    ensures r.None? ==> c !in s
  {
    if s == [] then None
    else if s[0] == c then Some(0)
    else match Find(s[1..], c)
      case Some(i) => (assert s[..i + 1] == [s[0]] + s[1..][..i]; Some(i + 1))
      case None => None
  }

  /**
   * `cut`: split s at the first sep into (before, after, true), or give
   * (s, "", false) when sep does not occur.
   */
  function Cut(s: string, sep: char): (r: (string, string, bool))
    ensures sep !in r.0
    ensures r.2 <==> sep in s
    ensures r.2 ==> s == r.0 + [sep] + r.1
    ensures !r.2 ==> r.0 == s && r.1 == ""
  {
    match Find(s, sep)
    case Some(i) => (assert s == s[..i] + [sep] + s[i + 1..]; (s[..i], s[i + 1..], true))
    case None => (s, "", false)
  }

  /** `cut` of a text whose first sep follows before: the split is before / after. */
  lemma CutFirst(before: string, sep: char, after: string)
    requires sep !in before
    ensures Cut(before + [sep] + after, sep) == (before, after, true)
  {
    var s := before + [sep] + after;
    assert s[..|before|] == before;
    FindAt(s, sep, |before|);
    assert s[|before| + 1..] == after;
  }

  /**
   * `extract_id`: parse the text before the first tab (the whole input when
   * there is none) as a u64.
   */
  function ExtractId(input: string): (r: Result<uint64>)
    ensures r == Err(Custom(NOT_PREFIXED)) <==> input == [] || input[0] == '\t'
    ensures r.Err? ==> r.error == Custom(NOT_PREFIXED) || r.error == Custom(BAD_ID)
  {
    var (idStr, _, _) := Cut(input, '\t');
    if idStr == [] then
      Err(Custom(NOT_PREFIXED))
    else
      match ParseU64(idStr)
      case Some(v) => Ok(v)
      case None => Err(Custom(BAD_ID))
  }

  /**
   * What `extract_id` returns, stated by the position k of the first tab (or
   * the end of the input): an empty field is "not prefixed", otherwise the
   * field parses as a u64 or the result is "converting id".
   */
  lemma ExtractIdField(input: string, k: nat)
    requires k <= |input| && '\t' !in input[..k]
    requires k == |input| || input[k] == '\t'
    ensures ExtractId(input) == if k == 0 then Err(Custom(NOT_PREFIXED))
                                else match ParseU64(input[..k])
                                  case Some(v) => Ok(v)
                                  case None => Err(Custom(BAD_ID))
  {
    FindAt(input, '\t', k);
    assert input[..|input|] == input;
  }

  /** The first occurrence of c is at k when no c comes earlier and k is c's position or the end. */
  lemma {:induction false} FindAt(s: string, c: char, k: nat)
    requires k <= |s| && c !in s[..k]
    requires k == |s| || s[k] == c
    ensures Find(s, c) == if k == |s| then None else Some(k)
  {
    if k > 0 {
      assert s[0] == s[..k][0];
      assert s[1..][..k - 1] == s[..k][1..];
      FindAt(s[1..], c, k - 1);
    }
  }

  /** Every line that starts with a decimal id and a tab yields that id back, whatever follows. */
  lemma ExtractIdListed(n: uint64, rest: string)
    ensures ExtractId(Decimal(n) + FIELD_SEP + rest) == Ok(n)
    ensures ExtractId(Decimal(n)) == Ok(n)
  {
    var d := Decimal(n);
    var line := d + FIELD_SEP + rest;
    ParseDecimal(n);
    assert line[..|d|] == d;
    assert '\t' !in d by {
      forall i | 0 <= i < |d|
        ensures d[i] != '\t'
      {
        assert IsDigit(d[i]);
      }
    }
    ExtractIdField(line, |d|);
    assert d[..|d|] == d;
    ExtractIdField(d, |d|);
  }
}
