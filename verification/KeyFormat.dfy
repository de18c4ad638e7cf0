/** The key constants and their text form, as DumpPublicKey.java computes and prints them. */
module KeyFormat {
  import opened WordArith
  import opened Division
  import opened Montgomery

  const KEY_BITS: nat := 2048

  datatype Result<T> = Ok(value: T) | BadExponent | BadLength | NotInvertible

  // ---------------------------------------------------------------- number properties

  function BitLength(n: nat): nat
  {
    if n == 0 then 0 else 1 + BitLength(n / 2)
  }

  lemma {:induction false} BitLengthBounds(n: nat, k: nat)
    requires k >= 1
    ensures BitLength(n) == k <==> Pow(2, k - 1) <= n < Pow(2, k)
  {
    assert Pow(2, k) == 2 * Pow(2, k - 1);
    PowPositive(k - 1);
    if n >= 2 && k >= 2 {
      BitLengthBounds(n / 2, k - 1);
      assert Pow(2, k - 1) == 2 * Pow(2, k - 2);
    } else if n >= 2 {
      assert BitLength(n / 2) >= 1;
      assert Pow(2, 0) == 1;
    } else if k >= 2 {
      PowPositive(k - 2);
      assert BitLength(n) <= 1;
      assert Pow(2, k - 1) == 2 * Pow(2, k - 2);
    } else {
      assert Pow(2, 0) == 1 && Pow(2, 1) == 2;
    }
  }

  lemma PowPositive(k: nat)
    ensures Pow(2, k) >= 1
  {
    if k > 0 { PowPositive(k - 1); }
  }

  lemma {:induction false} PowWeight(i: nat)
    ensures Pow(2, 32 * i) == Weight(i)
  {
    if i > 0 {
      PowWeight(i - 1);
      PowAdd(2, 32, 32 * (i - 1));
      WordPow();
    }
  }

  lemma BitsAreWords(n: nat, bits: nat, words: nat)
    requires bits == 32 * words && words > 0
    ensures BitLength(n) == bits <==> Weight(words) <= 2 * n && n < Weight(words)
    ensures Pow(2, bits) == Weight(words)
  {
    BitLengthBounds(n, bits);
    PowWeight(words);
    assert Pow(2, bits) == 2 * Pow(2, bits - 1);
  }

  /** The inverse of an odd number modulo 2^k, one bit at a time. */
  function OddInverse(n: int, k: nat): (x: int)
    requires n % 2 == 1
    ensures 0 <= x < Pow(2, k)
    ensures k > 0 ==> (n * x) % Pow(2, k) == 1
    decreases k
  {
    if k == 0 then 0
    else if k == 1 then
      1
    else
      var y := OddInverse(n, k - 1);
      var m := Pow(2, k - 1);
      PowPositive(k - 1);
      LiftInverse(n, y, m);
      if (n * y) % (2 * m) == 1 then y else y + m
  }

  lemma LiftInverse(n: int, y: int, m: int)
    requires n % 2 == 1 && m >= 2 && (n * y) % m == 1
    ensures (n * y) % (2 * m) == 1 || (n * (y + m)) % (2 * m) == 1
  {
    var q := (n * y) / m;
    assert n * y == m * q + 1;
    var h := n / 2;
    assert n == 2 * h + 1;
    if q % 2 == 0 {
      assert m * q == (2 * m) * (q / 2);
      Remainder(n * y, 2 * m, q / 2, 1);
    } else {
      assert q == 2 * (q / 2) + 1;
      assert n * (y + m) == n * y + n * m;
      assert n * m == (2 * m) * h + m;
      assert m * q == (2 * m) * (q / 2) + m;
      assert (2 * m) * (q / 2) + (2 * m) * h + 2 * m == (2 * m) * (q / 2 + h + 1);
      Remainder(n * (y + m), 2 * m, q / 2 + h + 1, 1);
    }
  }

  /** The only multiplier below 2^32 that takes n to 1, as BigInteger.modInverse returns it. */
  function ModInverse(n: int): (x: Word)
    requires n % 2 == 1
    ensures 1 <= x && (n * x) % B == 1
  {
    WordPow();
    var x := OddInverse(n, 32);
    assert x != 0;
    x
  }

  // ---------------------------------------------------------------- words of a number

  function WordsOf(v: int, k: nat): (s: seq<Word>)
    ensures |s| == k
    decreases k, v
  {
    if k == 0 then [] else [v % B] + WordsOf(v / B, k - 1)
  }

  lemma {:induction false} WordsOfValue(v: int, k: nat)
    requires 0 <= v < Weight(k)
    ensures Val(WordsOf(v, k)) == v
  {
    if k > 0 {
      WordsOfValue(v / B, k - 1);
      ValCons(v % B, WordsOf(v / B, k - 1));
    }
  }

  lemma {:induction false} ValCons(x: Word, t: seq<Word>)
    ensures Val([x] + t) == x + B * Val(t)
  {
    var s := [x] + t;
    if t == [] {
      assert s[..0] == [] && s == [x];
      assert Weight(0) == 1;
    } else {
      var k := |t| - 1;
      assert s[..k + 1] == [x] + t[..k];
      ValCons(x, t[..k]);
      assert t[k] * Weight(k + 1) == B * (t[k] * Weight(k));
    }
  }

  // ---------------------------------------------------------------- the key of a modulus

  ghost predicate Exportable(modulus: nat, exponent: int)
  {
    && (exponent == 3 || exponent == 65537)
    && BitLength(modulus) == KEY_BITS
    && modulus % 2 == 1
  }

  /** The struct that verification needs for this modulus and exponent. */
  function KeyOf(modulus: nat, exponent: int): RSAPublicKey
    requires modulus % 2 == 1
  {
    var words := BitLength(modulus) / 32;
    var r := Weight(words);
    RSAPublicKey(words, B - ModInverse(modulus), WordsOf(modulus, words), WordsOf((r * r) % modulus, words), exponent)
  }

  lemma KeyUsableFor(modulus: nat, exponent: int, words: nat)
    requires BitLength(modulus) == 32 * words && words > 0 && modulus % 2 == 1
    ensures KeyOf(modulus, exponent).len == words && KeyOf(modulus, exponent).Usable()
    ensures KeyOf(modulus, exponent).Modulus() == modulus
    ensures Pow(2, BitLength(modulus)) == Weight(words)
  {
    var r := Weight(words);
    BitsAreWords(modulus, 32 * words, words);
    WordsOfValue(modulus, words);
    WordsOfValue((r * r) % modulus, words);
    ModCong(r * r, modulus);
    NegatedInverse(modulus, ModInverse(modulus));
    assert WordsOf(modulus, words)[0] == modulus % B;
  }

  /** Every exported key meets the conditions that the exponentiations rely on. */
  lemma KeyIsUsable(modulus: nat, exponent: int)
    requires Exportable(modulus, exponent)
    ensures KeyOf(modulus, exponent).len == 64 && KeyOf(modulus, exponent).Usable()
    ensures KeyOf(modulus, exponent).Modulus() == modulus
  {
    KeyUsableFor(modulus, exponent, BitLength(modulus) / 32);
  }

  lemma NegatedInverse(n: int, x: Word)
    requires (n * x) % B == 1
    ensures ((B - x) * (n % B)) % B == B - 1
  {
    var q := (n * x) / B;
    var m := n / B;
    assert n * x == B * q + 1;
    assert n == B * m + n % B;
    assert (B - x) * (n % B) == B * (n % B) - x * (n % B);
    assert x * (B * m + n % B) == B * (x * m) + x * (n % B);
    var p := n % B - q + x * m - 1;
    assert (B - x) * (n % B) == B * p + (B - 1);
    Remainder((B - x) * (n % B), B, p, B - 1);
  }

  // ---------------------------------------------------------------- text

  function DigitChar(d: int): char
    requires 0 <= d < 16
  {
    "0123456789abcdef"[d]
  }

  /** Digits of n in base 10 or 16, most significant first, without leading zeros. */
  function Digits(n: nat, base: int): (s: string)
    requires base == 10 || base == 16
    ensures s != ""
  {
    if n < base then [DigitChar(n)] else Digits(n / base, base) + [DigitChar(n % base)]
  }

  function Join(ws: seq<Word>): string
  {
    if ws == [] then ""
    else if |ws| == 1 then Digits(ws[0], 10)
    else Join(ws[..|ws| - 1]) + "," + Digits(ws[|ws| - 1], 10)
  }

  /** The text after i of the words. */
  ghost function Progress(text: string, ws: seq<Word>, i: nat): string
    requires i <= |ws|
  {
    text + Join(ws[..i]) + (if 0 < i < |ws| then "," else "")
  }

  lemma ProgressStep(text: string, ws: seq<Word>, i: nat)
    requires i < |ws|
    ensures Progress(text, ws, i + 1)
            == Progress(text, ws, i) + Digits(ws[i], 10) + (if i != |ws| - 1 then "," else "")
  {
    assert ws[..i + 1][..i] == ws[..i];
    assert text + (Join(ws[..i]) + "," + Digits(ws[i], 10)) == text + Join(ws[..i]) + "," + Digits(ws[i], 10);
    assert ws[..0] == [];
  }

  /** The initializer text of a key. */
  function Render(key: RSAPublicKey): string
  {
    (if key.exponent == 3 then "" else "v2 ")
    + "{" + Digits(|key.n|, 10) + ",0x" + Digits(key.n0inv, 16)
    + ",{" + Join(key.n) + "}" + ",{" + Join(key.rr) + "}" + "}"
  }

  /** One digit of either base; the letters are small ones. */
  lemma OneDigit(d: nat)
    requires d < 16
    ensures DigitChar(d) as int == if d < 10 then d + 0x30 else d + 0x57
    ensures Digits(d, 16) == [DigitChar(d)] && (d < 10 ==> Digits(d, 10) == [DigitChar(d)])
  {
    assert 0 <= d < 16 ==> "0123456789abcdef"[d] == DigitChar(d);
  }

  /** One more digit behind those of a number. */
  lemma NextDigit(n: nat, base: nat, q: nat, d: nat)
    requires base in {10, 16} && n == q * base + d && d < base && q > 0
    ensures Digits(n, base) == Digits(q, base) + [DigitChar(d)]
  {
    Quotient(q, base, d);
  }

  lemma SmallNumbers()
    ensures Digits(2, 10) == "2" && Digits(4, 10) == "4" && Digits(10, 10) == "10" && Digits(39, 10) == "39"
    ensures Digits(0xaf, 16) == "af"
  {
    hide Digits;
    OneDigit(1);
    OneDigit(2);
    OneDigit(3);
    OneDigit(4);
    OneDigit(10);
    NextDigit(10, 10, 1, 0);
    NextDigit(39, 10, 3, 9);
    NextDigit(0xaf, 16, 10, 15);
  }

  lemma TwoWords(x: Word, y: Word)
    ensures Join([x, y]) == Digits(x, 10) + "," + Digits(y, 10)
  {
    assert [x, y][..1] == [x];
  }

  /** The text of a small key, character by character. */
  lemma SmallKeyText(exponent: int)
    ensures Render(RSAPublicKey(2, 0xaf, [10, 2], [39, 4], exponent)) ==
            (if exponent == 3 then "" else "v2 ") + "{2,0xaf,{10,2},{39,4}}"
  {
    hide Digits, Join;
    SmallNumbers();
    TwoWords(10, 2);
    TwoWords(39, 4);
    var version := if exponent == 3 then "" else "v2 ";
    assert version + "{" + "2" + ",0x" + "af" == version + "{2,0xaf";
    assert version + "{2,0xaf" + ",{" + "10,2" + "}" == version + "{2,0xaf,{10,2}";
    assert version + "{2,0xaf,{10,2}" + ",{" + "39,4" + "}" + "}" == version + "{2,0xaf,{10,2},{39,4}}";
  }

  /** Version of the key format, or the reason the key is refused. */
  method Check(modulus: nat, exponent: int) returns (r: Result<int>)
    ensures r.Ok? <==> (exponent == 3 || exponent == 65537) && BitLength(modulus) == KEY_BITS
    ensures r.Ok? ==> r.value == if exponent == 3 then 1 else 2
    ensures r.BadExponent? <==> exponent != 3 && exponent != 65537
    ensures r.BadLength? <==> (exponent == 3 || exponent == 65537) && BitLength(modulus) != KEY_BITS
  {
    var version;
    if exponent == 3 {
      version := 1;
    } else if exponent == 65537 {
      version := 2;
    } else {
      return BadExponent;
    }
    if BitLength(modulus) != KEY_BITS {
      return BadLength;
    }
    return Ok(version);
  }

  /** Writes k words of v, separated by commas. */
  method AppendWords(text: string, v: int, k: nat) returns (result: string)
    requires v >= 0
    ensures result == text + Join(WordsOf(v, k))
  {
    ghost var ws := WordsOf(v, k);
    result := text;
    var rest := v;
    var i := 0;
    while i < k
      invariant 0 <= i <= k && rest >= 0
      invariant ws[i..] == WordsOf(rest, k - i)
      invariant result == Progress(text, ws, i)
    {
      assert ws[i] == ws[i..][0] == rest % B;
      assert ws[i + 1..] == ws[i..][1..];
      ProgressStep(text, ws, i);
      result := result + Digits(rest % B, 10);
      if i != k - 1 {
        result := result + ",";
      }
      rest := rest / B;
      i := i + 1;
    }
    assert ws[..k] == ws;
  }

  function Head(exponent: int, len: nat, n0inv: Word): string
  {
    (if exponent == 3 then "" else "v2 ") + "{" + Digits(len, 10) + ",0x" + Digits(n0inv, 16)
  }

  lemma RenderParts(key: RSAPublicKey, head: string, text: string)
    requires head == Head(key.exponent, |key.n|, key.n0inv)
    requires text == head + ",{" + Join(key.n) + "}" + ",{" + Join(key.rr) + "}" + "}"
    ensures text == Render(key)
  {
    var a, b, c, d := ",{" + Join(key.n), "}" + ",{", Join(key.rr) + "}", "}";
    assert text == head + (a + (b + (c + d)));
    assert Render(key) == head + (a + (b + (c + d)));
  }

  /** The text up to n0inv; version 1 keys carry no version mark. */
  method PrintHead(version: int, nwords: nat, n0inv: Word) returns (result: string)
    requires version == 1 || version == 2
    ensures result == Head(if version == 1 then 3 else 65537, nwords, n0inv)
  {
    result := "";
    if version > 1 {
      assert Digits(version, 10) == "2";
      result := result + "v" + Digits(version, 10) + " ";
    }
    result := result + "{" + Digits(nwords, 10);
    result := result + ",0x" + Digits(n0inv, 16);
  }

  /** The rest of the text: modulus and R^2 mod modulus as little-endian words. */
  method PrintArrays(head: string, modulus: nat, nwords: nat) returns (result: string)
    requires modulus > 0
    ensures var bigR := Pow(2, BitLength(modulus));
            result == head + ",{" + Join(WordsOf(modulus, nwords)) + "}"
                      + ",{" + Join(WordsOf((bigR * bigR) % modulus, nwords)) + "}" + "}"
  {
    var bigR := Pow(2, BitLength(modulus));
    var rr := (bigR * bigR) % modulus;
    result := head + ",{";
    result := AppendWords(result, modulus, nwords);
    result := result + "}";
    result := result + ",{";
    result := AppendWords(result, rr, nwords);
    result := result + "}";
    result := result + "}";
  }

  /** The text of a key with this modulus and exponent; an even modulus has no inverse and is refused. */
  method Print(modulus: nat, exponent: int) returns (r: Result<string>)
    ensures r.Ok? <==> Exportable(modulus, exponent)
    ensures r.Ok? ==> r.value == Render(KeyOf(modulus, exponent))
    ensures r.NotInvertible? <==>
              (exponent == 3 || exponent == 65537) && BitLength(modulus) == KEY_BITS && modulus % 2 == 0
  {
    var checked := Check(modulus, exponent);
    if !checked.Ok? {
      return if checked.BadExponent? then BadExponent else BadLength;
    }
    var version := checked.value;
    var nwords := BitLength(modulus) / 32;
    if modulus % 2 == 0 {
      return NotInvertible;
    }
    KeyUsableFor(modulus, exponent, nwords);
    var n0inv := B - ModInverse(modulus);
    var head := PrintHead(version, nwords, n0inv);
    var result := PrintArrays(head, modulus, nwords);
    RenderParts(KeyOf(modulus, exponent), head, result);
    return Ok(result);
  }

  /** What main writes for a list of keys: one per line, a comma after all but the last. */
  function Listing(keys: seq<RSAPublicKey>): string
  {
    if keys == [] then ""
    else Render(keys[0]) + (if |keys| > 1 then "," else "") + "\n" + Listing(keys[1..])
  }
}
