/** load_keys of verifier.c: reading the key file back, directive by directive as fscanf does. */
module KeyLoader {
  import opened Wrappers
  import opened WordArith
  import opened Montgomery
  import opened KeyFormat

  datatype Scanned<T> = Got(value: T, rest: string) | Miss
  datatype Conversion = Dec | Hex | Auto  // %d and %u, %x, %i

  // ---------------------------------------------------------------- fscanf directives

  predicate IsSpace(c: char)
  {
    c == ' ' || 9 <= c as int <= 13
  }

  function SkipSpace(s: string): (r: string)
    ensures |r| <= |s|
  {
    if s != "" && IsSpace(s[0]) then SkipSpace(s[1..]) else s
  }

  function DigitOf(c: char, base: int): int
  {
    var d := if '0' <= c <= '9' then c as int - '0' as int
             else if 'a' <= c <= 'f' then c as int - 'a' as int + 10
             else if 'A' <= c <= 'F' then c as int - 'A' as int + 10
             else 16;
    if d < base then d else -1
  }

  /** One more digit position. */
  function Shifted(acc: int, base: int): int
  {
    if base == 16 then 16 * acc else if base == 10 then 10 * acc else 8 * acc
  }

  /** The longest run of digits, read as a number that starts with acc. */
  function Run(acc: int, s: string, base: int): (r: (int, string))
    ensures |r.1| <= |s|
    decreases s, acc
  {
    if s != "" && DigitOf(s[0], base) >= 0
    then Run(Shifted(acc, base) + DigitOf(s[0], base), s[1..], base)
    else (acc, s)
  }

  function Magnitude(s: string, base: int): (r: Scanned<int>)
    ensures r.Got? ==> |r.rest| <= |s|
  {
    if s != "" && DigitOf(s[0], base) >= 0
    then var (v, rest) := Run(0, s, base); Got(v, rest)
    else Miss
  }

  predicate HexPrefix(s: string)
  {
    |s| >= 2 && s[0] == '0' && (s[1] == 'x' || s[1] == 'X')
  }

  function Number(s: string, conv: Conversion): (r: Scanned<int>)
    ensures r.Got? ==> |r.rest| <= |s|
  {
    match conv
    case Dec => Magnitude(s, 10)
    case Hex => if HexPrefix(s) then Magnitude(s[2..], 16) else Magnitude(s, 16)
    case Auto => if HexPrefix(s) then Magnitude(s[2..], 16)
                 else if s != "" && s[0] == '0' then Magnitude(s, 8)
                 else Magnitude(s, 10)
  }

  function Integer(s: string, conv: Conversion): (r: Scanned<int>)
    ensures r.Got? ==> |r.rest| <= |s|
  {
    var s1 := SkipSpace(s);
    if s1 != "" && s1[0] == '-' then
      match Number(s1[1..], conv)
      case Got(v, rest) => Got(-v, rest)
      case Miss => Miss
    else if s1 != "" && s1[0] == '+' then Number(s1[1..], conv)
    else Number(s1, conv)
  }

  /** The white space of the C locale. */
  lemma WhiteSpace(c: char)
    ensures IsSpace(c) <==> c as int in {9, 10, 11, 12, 13, 32}
  {}

  lemma TwoDigits(a: char, b: char, rest: string, base: int)
    requires base in {8, 10, 16} && DigitOf(a, base) >= 0 && DigitOf(b, base) >= 0
    requires rest != "" ==> DigitOf(rest[0], base) < 0
    ensures Magnitude([a, b] + rest, base) == Got(base * DigitOf(a, base) + DigitOf(b, base), rest)
  {
    var s := [a, b] + rest;
    assert s[1..] == [b] + rest && s[1..][1..] == rest;
    assert Run(DigitOf(a, base), s[1..], base) == Run(Shifted(DigitOf(a, base), base) + DigitOf(b, base), rest, base);
  }

  /** A leading zero counts as a digit of base 8, and an 8 ends the number. */
  lemma Octal(rest: string)
    requires rest != "" ==> DigitOf(rest[0], 10) < 0
    ensures Magnitude(['0', '1', '7'] + rest, 8) == Got(15, rest)
    ensures Magnitude(['0', '8'] + rest, 8) == Got(0, ['8'] + rest)
  {
    var s, t := ['0', '1', '7'] + rest, ['0', '8'] + rest;
    assert s[1..] == ['1', '7'] + rest && s[1..][1..] == ['7'] + rest && s[1..][1..][1..] == rest;
    assert Run(1, ['7'] + rest, 8) == Run(15, rest, 8);
    assert Run(0, ['1', '7'] + rest, 8) == Run(1, ['7'] + rest, 8);
    assert t[1..] == ['8'] + rest;
    assert Run(0, t, 8) == Run(0, ['8'] + rest, 8) == (0, ['8'] + rest);
  }

  /** Two digits behind the prefix of %i: none, 0 or 0x; the letters of either case are digits. A 0x without digits is
      no match. */
  lemma AutoBase(rest: string)
    requires rest != "" ==> DigitOf(rest[0], 16) < 0
    ensures Number(['1', '7'] + rest, Auto) == Got(17, rest)
    ensures Number(['0', '1', '7'] + rest, Auto) == Got(15, rest)
    ensures Number(['0', '8'] + rest, Auto) == Got(0, ['8'] + rest)
    ensures Number(['0', 'x', '1', 'f'] + rest, Auto) == Number(['0', 'X', '1', 'F'] + rest, Auto) == Got(31, rest)
    ensures Number(['0', 'x'] + rest, Auto) == Miss
  {
    TwoDigits('1', '7', rest, 10);
    Octal(rest);
    TwoDigits('1', 'f', rest, 16);
    TwoDigits('1', 'F', rest, 16);
    assert (['0', 'x', '1', 'f'] + rest)[2..] == ['1', 'f'] + rest;
    assert (['0', 'X', '1', 'F'] + rest)[2..] == ['1', 'F'] + rest;
    assert (['0', 'x'] + rest)[2..] == rest;
  }

  /** Storing into an unsigned int, or into an int. */
  function ToUint(v: int): Word { v % B }

  function ToInt(v: int): int { (v + 0x8000_0000) % B - 0x8000_0000 }

  /** A format string: white space, a literal character or an integer conversion at a time. */
  datatype Format = End | Space(next: Format) | Lit(c: char, next: Format) | Int(conv: Conversion, next: Format)

  /** The values that fscanf assigns and the input it leaves; it stops at the first directive that does not match. */
  function Scan(fmt: Format, s: string): (r: (seq<int>, string))
    ensures |r.1| <= |s|
    decreases fmt, s
  {
    match fmt
    case End => ([], s)
    case Space(next) => Scan(next, SkipSpace(s))
    case Lit(c, next) => if s != "" && s[0] == c then Scan(next, s[1..]) else ([], s)
    case Int(conv, next) =>
      match Integer(s, conv)
      case Miss => ([], s)
      case Got(v, s1) => var (vs, rest) := Scan(next, s1); ([v] + vs, rest)
  }

  /** fscanf(f, fmt, ...) != k is a failure. */
  function ScanAll(fmt: Format, s: string, k: nat): (r: Scanned<seq<int>>)
    ensures r.Got? ==> |r.rest| <= |s| && |r.value| == k
  {
    var (vs, rest) := Scan(fmt, s);
    if |vs| == k then Got(vs, rest) else Miss
  }

  // " , %u"
  const COMMA_UINT := Space(Lit(',', Space(Int(Dec, End))))
  // "%d {"
  const VERSION := Int(Dec, Space(Lit('{', End)))
  // " %i , 0x%x , { %u"
  const HEADER := Space(Int(Auto, HEADER_REST))
  // its part after the length
  const HEADER_REST := Space(Lit(',', Space(Lit('0', Lit('x', Int(Hex, ARRAY))))))
  // " , { %u"
  const ARRAY := Space(Lit(',', Space(Lit('{', Space(Int(Dec, End))))))
  // " } , { %u"
  const NEXT_ARRAY := Space(Lit('}', ARRAY))
  // " } } "
  const CLOSE := Space(Lit('}', Space(Lit('}', Space(End)))))

  function Words(s: string, k: nat): (r: Scanned<seq<Word>>)
    ensures r.Got? ==> |r.rest| <= |s| && |r.value| == k
    decreases k, s
  {
    if k == 0 then Got([], s)
    else
      match ScanAll(COMMA_UINT, s, 1)
      case Miss => Miss
      case Got(vs, s1) =>
        match Words(s1, k - 1)
        case Miss => Miss
        case Got(ws, rest) => Got([ToUint(vs[0])] + ws, rest)
  }

  // ---------------------------------------------------------------- one key

  /** The exponent that the start of the entry selects; garbage is what realloc left in the field. */
  function Start(s: string, garbage: int): (r: Scanned<int>)
    ensures r.Got? ==> |r.rest| < |s|
  {
    var s1 := SkipSpace(s);
    if s1 == "" then Miss
    else if s1[0] == '{' then Got(3, s1[1..])
    else if s1[0] == 'v' then
      match ScanAll(VERSION, s1[1..], 1)
      case Miss => Miss
      case Got(vs, rest) => if ToInt(vs[0]) == 2 then Got(65537, rest) else Miss
    else Got(garbage, s1[1..])
  }

  function ParseKey(s: string, garbage: int): (r: Scanned<RSAPublicKey>)
    ensures r.Got? ==> |r.rest| < |s|
  {
    match Start(s, garbage)
    case Miss => Miss
    case Got(exponent, s1) => ParseNumbers(s1, exponent)
  }

  function ParseNumbers(s: string, exponent: int): (r: Scanned<RSAPublicKey>)
    ensures r.Got? ==> |r.rest| <= |s|
  {
    match ScanAll(HEADER, s, 3)
    case Miss => Miss
    case Got(h, s1) =>
      if ToInt(h[0]) != 64 then Miss
      else
        match Words(s1, 63)
        case Miss => Miss
        case Got(n, s2) => ParseSecond(s2, RSAPublicKey(64, ToUint(h[1]), [ToUint(h[2])] + n, [], exponent))
  }

  function ParseSecond(s: string, key: RSAPublicKey): (r: Scanned<RSAPublicKey>)
    ensures r.Got? ==> |r.rest| <= |s|
  {
    match ScanAll(NEXT_ARRAY, s, 1)
    case Miss => Miss
    case Got(vs, s1) =>
      match Words(s1, 63)
      case Miss => Miss
      case Got(rr, s2) => Got(key.(rr := [ToUint(vs[0])] + rr), Scan(CLOSE, s2).1)
  }

  /** The keys of a whole file: entries separated by commas, nothing after the last. */
  function ParseKeys(s: string, garbage: int): Option<seq<RSAPublicKey>>
    decreases |s|
  {
    match ParseKey(s, garbage)
    case Miss => None
    case Got(key, rest) =>
      if rest == "" then Some([key])
      else if rest[0] != ',' then None
      else
        match ParseKeys(rest[1..], garbage)
        case None => None
        case Some(keys) => Some([key] + keys)
  }

  // ---------------------------------------------------------------- load_keys

  function Prefixed(ws: seq<Word>, r: Scanned<seq<Word>>): Scanned<seq<Word>>
  {
    match r
    case Miss => Miss
    case Got(more, rest) => Got(ws + more, rest)
  }

  lemma PrefixedStep(ws: seq<Word>, w: Word, r: Scanned<seq<Word>>)
    ensures Prefixed(ws, Prefixed([w], r)) == Prefixed(ws + [w], r)
  {
    if r.Got? { assert ws + ([w] + r.value) == (ws + [w]) + r.value; }
  }

  /** The loop over the comma-separated numbers behind the first one. */
  method ReadWords(s: string, k: nat) returns (r: Scanned<seq<Word>>)
    ensures r == Words(s, k)
  {
    var ws: seq<Word> := [];
    var rest := s;
    var i := 0;
    assert Prefixed([], Words(s, k)) == Words(s, k) by {
      if Words(s, k).Got? { assert [] + Words(s, k).value == Words(s, k).value; }
    }
    while i < k
      invariant 0 <= i <= k
      invariant Words(s, k) == Prefixed(ws, Words(rest, k - i))
    {
      var one := ScanAll(COMMA_UINT, rest, 1);
      if one.Miss? {
        return Miss;
      }
      PrefixedStep(ws, ToUint(one.value[0]), Words(one.rest, k - i - 1));
      ws, rest := ws + [ToUint(one.value[0])], one.rest;
      i := i + 1;
    }
    assert ws + [] == ws;
    return Got(ws, rest);
  }

  /** One entry of the file. */
  method ReadKey(s: string, garbage: int) returns (r: Scanned<RSAPublicKey>)
    ensures r == ParseKey(s, garbage)
  {
    var start := Start(s, garbage);
    if start.Miss? {
      return Miss;
    }
    var header := ScanAll(HEADER, start.rest, 3);
    if header.Miss? {
      return Miss;
    }
    var len := ToInt(header.value[0]);
    if len != 64 {
      return Miss;
    }
    var n := ReadWords(header.rest, len - 1);
    if n.Miss? {
      return Miss;
    }
    var rr0 := ScanAll(NEXT_ARRAY, n.rest, 1);
    if rr0.Miss? {
      return Miss;
    }
    var rr := ReadWords(rr0.rest, len - 1);
    if rr.Miss? {
      return Miss;
    }
    var (_, rest) := Scan(CLOSE, rr.rest);
    return Got(RSAPublicKey(len, ToUint(header.value[1]), [ToUint(header.value[2])] + n.value,
                            [ToUint(rr0.value[0])] + rr.value, start.value), rest);
  }

  function Onto(keys: seq<RSAPublicKey>, more: Option<seq<RSAPublicKey>>): Option<seq<RSAPublicKey>>
  {
    match more
    case None => None
    case Some(ks) => Some(keys + ks)
  }

  lemma OntoStep(keys: seq<RSAPublicKey>, key: RSAPublicKey, more: Option<seq<RSAPublicKey>>)
    ensures Onto(keys, Onto([key], more)) == Onto(keys + [key], more)
  {
    if more.Some? { assert keys + ([key] + more.value) == (keys + [key]) + more.value; }
  }

  /** Null on any mismatch, else every key of the file. */
  method LoadKeys(text: string, garbage: int) returns (out: Option<seq<RSAPublicKey>>)
    ensures out == ParseKeys(text, garbage)
  {
    var keys: seq<RSAPublicKey> := [];
    var rest := text;
    assert Onto([], ParseKeys(text, garbage)) == ParseKeys(text, garbage) by {
      var p := ParseKeys(text, garbage);
      if p.Some? { assert [] + p.value == p.value; }
    }
    while true
      invariant ParseKeys(text, garbage) == Onto(keys, ParseKeys(rest, garbage))
      decreases |rest|
    {
      var key := ReadKey(rest, garbage);
      if key.Miss? {
        return None;
      }
      if key.rest == "" {
        return Some(keys + [key.value]);
      }
      if key.rest[0] != ',' {
        return None;
      }
      OntoStep(keys, key.value, ParseKeys(key.rest[1..], garbage));
      keys, rest := keys + [key.value], key.rest[1..];
    }
  }

  /** Every key that is accepted has full arrays and one of the two exponents, unless its entry starts with neither
      brace nor v. */
  lemma {:induction false} LoadedKeysAreWhole(s: string, garbage: int)
    requires ParseKeys(s, garbage).Some?
    ensures forall k :: k in ParseKeys(s, garbage).value ==>
              k.Whole() && k.len == 64 && (k.exponent == 3 || k.exponent == 65537 || k.exponent == garbage)
    decreases |s|
  {
    var r := ParseKey(s, garbage);
    WholeKey(s, garbage);
    if r.rest != "" {
      LoadedKeysAreWhole(r.rest[1..], garbage);
    }
  }

  lemma WholeKey(s: string, garbage: int)
    requires ParseKey(s, garbage).Got?
    ensures var k := ParseKey(s, garbage).value;
            k.Whole() && k.len == 64 && (k.exponent == 3 || k.exponent == 65537 || k.exponent == garbage)
  {}

  // ---------------------------------------------------------------- what Render writes, read back

  lemma RunStep(acc: int, d: int, t: string, base: int)
    requires 0 <= d < base <= 16
    ensures Run(acc, [DigitChar(d)] + t, base) == Run(Shifted(acc, base) + d, t, base)
  {
    DigitBack(d, base);
    assert ([DigitChar(d)] + t)[1..] == t;
  }

  lemma {:induction false} RunDigits(n: nat, base: int, t: string)
    requires base == 10 || base == 16
    ensures Run(0, Digits(n, base) + t, base) == Run(n, t, base)
    decreases n
  {
    hide DigitOf, DigitChar;
    if n < base {
      RunStep(0, n, t, base);
    } else {
      var d := [DigitChar(n % base)];
      assert (Digits(n / base, base) + d) + t == Digits(n / base, base) + (d + t);
      RunDigits(n / base, base, d + t);
      RunStep(n / base, n % base, t, base);
      QuotientRemainder(n, base);
    }
  }

  lemma QuotientRemainder(n: nat, base: int)
    requires base == 10 || base == 16
    ensures Shifted(n / base, base) + n % base == n
  {}

  lemma DigitBack(d: int, base: int)
    requires 0 <= d < base <= 16
    ensures DigitOf(DigitChar(d), base) == d && !IsSpace(DigitChar(d))
    ensures DigitChar(d) != '-' && DigitChar(d) != '+'
    ensures DigitChar(d) == '0' <==> d == 0
  {}

  lemma {:induction false} FirstDigit(n: nat, base: int)
    requires base == 10 || base == 16
    ensures exists d :: 0 <= d < base && Digits(n, base)[0] == DigitChar(d) && (n > 0 ==> d > 0)
    decreases n
  {
    if n < base {
      assert Digits(n, base)[0] == DigitChar(n);
    } else {
      FirstDigit(n / base, base);
    }
  }

  /** Ends a number: empty, or something that is no hexadecimal digit. */
  predicate Stops(t: string)
  {
    t == "" || DigitOf(t[0], 16) < 0
  }

  lemma ReadDigits(n: nat, conv: Conversion, t: string)
    requires Stops(t)
    requires conv != Dec ==> n > 0
    ensures Integer(Digits(n, if conv == Hex then 16 else 10) + t, conv) == Got(n, t)
  {
    var base := if conv == Hex then 16 else 10;
    FirstDigit(n, base);
    var d :| 0 <= d < base && Digits(n, base)[0] == DigitChar(d) && (n > 0 ==> d > 0);
    DigitBack(d, base);
    RunDigits(n, base, t);
    var s := Digits(n, base) + t;
    assert s[0] == DigitChar(d);
  }

  /** The text that fmt reads as these values, followed by t. */
  function Emit(fmt: Format, vs: seq<int>, t: string): string
    decreases fmt
  {
    match fmt
    case End => t
    case Space(next) => Emit(next, vs, t)
    case Lit(c, next) => [c] + Emit(next, vs, t)
    case Int(conv, next) =>
      if vs == [] || vs[0] < 0 then t
      else Digits(vs[0], if conv == Hex then 16 else 10) + Emit(next, vs[1..], t)
  }

  /** Every number is followed by a character that ends it, and no skipped space swallows the text. */
  ghost predicate Fits(fmt: Format, vs: seq<int>, t: string)
    decreases fmt
  {
    match fmt
    case End => vs == []
    case Space(next) => SkipSpace(Emit(next, vs, t)) == Emit(next, vs, t) && Fits(next, vs, t)
    case Lit(c, next) => Fits(next, vs, t)
    case Int(conv, next) =>
      && vs != [] && (if conv == Dec then vs[0] >= 0 else vs[0] > 0)
      && Stops(Emit(next, vs[1..], t))
      && Fits(next, vs[1..], t)
  }

  /** fscanf inverts printf for any format whose text is unambiguous. */
  lemma {:induction false} ScanEmit(fmt: Format, vs: seq<int>, t: string)
    requires Fits(fmt, vs, t)
    ensures Scan(fmt, Emit(fmt, vs, t)) == (vs, t)
    decreases fmt
  {
    hide Integer, Digits, Stops, SkipSpace;
    match fmt
    case End =>
    case Space(next) => ScanEmit(next, vs, t);
    case Lit(c, next) =>
      ScanEmit(next, vs, t);
      assert ([c] + Emit(next, vs, t))[1..] == Emit(next, vs, t);
    case Int(conv, next) =>
      ScanEmit(next, vs[1..], t);
      ReadDigits(vs[0], conv, Emit(next, vs[1..], t));
      assert [vs[0]] + vs[1..] == vs;
  }

  lemma NoSpaceBefore(s: string)
    requires s != "" && !IsSpace(s[0])
    ensures SkipSpace(s) == s
  {}

  lemma DigitsStart(n: nat, base: int, t: string)
    requires base == 10 || base == 16
    ensures SkipSpace(Digits(n, base) + t) == Digits(n, base) + t
  {
    FirstDigit(n, base);
    var d :| 0 <= d < base && Digits(n, base)[0] == DigitChar(d) && (n > 0 ==> d > 0);
    DigitBack(d, base);
    assert (Digits(n, base) + t)[0] == Digits(n, base)[0];
  }

  lemma ReadUint(n: nat, t: string)
    requires Stops(t)
    ensures var f := Space(Int(Dec, End));
            Fits(f, [n], t) && Emit(f, [n], t) == Digits(n, 10) + t
  {
    var f := Int(Dec, End);
    assert [n][1..] == [];
    assert Emit(End, [n][1..], t) == t;
    assert Emit(f, [n], t) == Digits(n, 10) + t;
    DigitsStart(n, 10, t);
  }

  lemma ReadCommaUint(w: Word, t: string)
    requires Stops(t)
    ensures ScanAll(COMMA_UINT, "," + (Digits(w, 10) + t), 1) == Got([w], t)
  {
    var f := Space(Int(Dec, End));
    ReadUint(w, t);
    var u := Emit(f, [w], t);
    assert Emit(Lit(',', f), [w], t) == [','] + u;
    NoSpaceBefore([','] + u);
    ScanEmit(COMMA_UINT, [w], t);
  }

  lemma ReadArray(w: Word, t: string)
    requires Stops(t)
    ensures Fits(ARRAY, [w], t) && Emit(ARRAY, [w], t) == "," + ("{" + (Digits(w, 10) + t))
  {
    var f := Space(Int(Dec, End));
    ReadUint(w, t);
    var u := Emit(f, [w], t);
    var g := Space(Lit('{', f));
    assert Emit(Lit('{', f), [w], t) == ['{'] + u;
    NoSpaceBefore(['{'] + u);
    assert Emit(Lit(',', g), [w], t) == [','] + (['{'] + u);
    NoSpaceBefore([','] + (['{'] + u));
  }

  /** Join, with the first word split off and t appended. */
  function Commas(ws: seq<Word>, t: string): string
  {
    if ws == [] then t else "," + (Digits(ws[0], 10) + Commas(ws[1..], t))
  }

  lemma {:induction false} CommasSnoc(ws: seq<Word>, w: Word, t: string)
    ensures Commas(ws + [w], t) == Commas(ws, "," + (Digits(w, 10) + t))
  {
    if ws == [] {
      assert ([] + [w])[1..] == [];
    } else {
      assert (ws + [w])[1..] == ws[1..] + [w];
      CommasSnoc(ws[1..], w, t);
    }
  }

  lemma {:induction false} JoinCommas(ws: seq<Word>, t: string)
    requires ws != []
    ensures Join(ws) + t == Digits(ws[0], 10) + Commas(ws[1..], t)
    decreases |ws|
  {
    var k := |ws| - 1;
    if k == 0 {
    } else {
      var t' := "," + (Digits(ws[k], 10) + t);
      assert Join(ws) + t == Join(ws[..k]) + t';
      JoinCommas(ws[..k], t');
      assert ws[1..] == ws[..k][1..] + [ws[k]];
      CommasSnoc(ws[..k][1..], ws[k], t);
    }
  }

  lemma WordsCons(s: string, w: Word, s1: string, ws: seq<Word>, rest: string)
    requires ScanAll(COMMA_UINT, s, 1) == Got([w], s1) && Words(s1, |ws|) == Got(ws, rest)
    ensures Words(s, |ws| + 1) == Got([w] + ws, rest)
  {}

  lemma {:induction false} ReadCommas(ws: seq<Word>, t: string)
    requires Stops(t)
    ensures Words(Commas(ws, t), |ws|) == Got(ws, t) && Stops(Commas(ws, t))
  {
    if ws != [] {
      var later := Commas(ws[1..], t);
      ReadCommas(ws[1..], t);
      ReadCommaUint(ws[0], later);
      WordsCons(Commas(ws, t), ws[0], later, ws[1..], t);
      assert [ws[0]] + ws[1..] == ws;
    }
  }

  /** What the printer writes: full arrays, a positive n0inv and a supported exponent. */
  ghost predicate Printable(key: RSAPublicKey)
  {
    && key.len == |key.n| == |key.rr| == 64
    && key.n0inv > 0
    && (key.exponent == 3 || key.exponent == 65537)
  }

  function Mark(key: RSAPublicKey): string
  {
    if key.exponent == 3 then "" else "v2 "
  }

  /** Render(key) + t, grouped the way the parser consumes it. */
  function Pieces(key: RSAPublicKey, t: string): string
  {
    Mark(key) + ("{" + AfterBrace(key, t))
  }

  function AfterBrace(key: RSAPublicKey, t: string): string
  {
    Digits(|key.n|, 10) + ("," + ("0x" + (Digits(key.n0inv, 16) + ("," + ("{" + (Join(key.n) + SecondArray(key, t)))))))
  }

  function SecondArray(key: RSAPublicKey, t: string): string
  {
    "}" + ("," + ("{" + (Join(key.rr) + ("}" + ("}" + t)))))
  }

  lemma RegroupTail(j: string, k: string, t: string)
    ensures j + "}" + ",{" + k + "}" + "}" + t == j + ("}" + ("," + ("{" + (k + ("}" + ("}" + t))))))
  {
    var u := "}" + ("}" + t);
    assert j + "}" + ",{" + k + "}" + "}" + t == j + "}" + ",{" + (k + u);
    assert ",{" == "," + "{";
  }

  lemma RegroupText(m: string, d: string, h: string, u: string)
    ensures m + "{" + d + ",0x" + h + ",{" + u == m + ("{" + (d + ("," + ("0x" + (h + ("," + ("{" + u)))))))
  {
    var v := h + ("," + ("{" + u));
    assert ",{" == "," + "{" && ",0x" == "," + "0x";
    assert m + "{" + d + ",0x" + h + ",{" + u == m + "{" + d + ",0x" + v;
    assert m + "{" + d + ",0x" + v == m + ("{" + (d + ("," + ("0x" + v))));
  }

  lemma Regroup(key: RSAPublicKey, t: string)
    ensures Render(key) + t == Pieces(key, t)
  {
    hide Digits, Join;
    var m, d, h, j, k := Mark(key), Digits(|key.n|, 10), Digits(key.n0inv, 16), Join(key.n), Join(key.rr);
    RegroupTail(j, k, t);
    RegroupText(m, d, h, j + SecondArray(key, t));
    var front := m + "{" + d + ",0x" + h + ",{";
    assert front + j + "}" + ",{" + k + "}" + "}" + t == front + (j + "}" + ",{" + k + "}" + "}" + t);
    assert Render(key) == front + j + "}" + ",{" + k + "}" + "}";
  }

  lemma ReadStart(key: RSAPublicKey, rest: string, garbage: int)
    requires key.exponent == 3 || key.exponent == 65537
    ensures Start(Mark(key) + ("{" + rest), garbage) == Got(key.exponent, rest)
  {
    var s := Mark(key) + ("{" + rest);
    if key.exponent == 3 {
      assert s == "{" + rest && s[1..] == rest;
    } else {
      assert s[0] == 'v' && s[1..] == "2" + (" " + ("{" + rest));
      ReadVersion(rest);
    }
  }

  lemma ReadVersion(rest: string)
    ensures ScanAll(VERSION, "2" + (" " + ("{" + rest)), 1) == Got([2], rest)
  {
    var u := " " + ("{" + rest);
    assert Digits(2, 10) == "2";
    ReadDigits(2, Dec, u);
    var f := Lit('{', End);
    assert u[1..] == "{" + rest;
    assert SkipSpace(u) == "{" + rest;
    assert ("{" + rest)[1..] == rest;
    assert Scan(f, "{" + rest) == ([], rest);
    assert Scan(Space(f), u) == ([], rest);
    assert Integer("2" + u, Dec) == Got(2, u);
    assert Scan(Int(Dec, Space(f)), "2" + u) == ([2] + [], rest);
    assert [2] + [] == [2];
  }

  lemma ReadHexArray(inv: Word, w: Word, t: string)
    requires Stops(t) && inv > 0
    ensures Fits(Int(Hex, ARRAY), [inv, w], t)
    ensures Emit(Int(Hex, ARRAY), [inv, w], t) == Digits(inv, 16) + ("," + ("{" + (Digits(w, 10) + t)))
  {
    ReadArray(w, t);
    assert [inv, w][1..] == [w];
  }

  lemma ZeroX(u: string)
    ensures ['0'] + (['x'] + u) == "0x" + u
  {}

  lemma ReadHeaderRest(inv: Word, w: Word, t: string)
    requires Stops(t) && inv > 0
    ensures Fits(HEADER_REST, [inv, w], t)
    ensures Emit(HEADER_REST, [inv, w], t) == "," + ("0x" + (Digits(inv, 16) + ("," + ("{" + (Digits(w, 10) + t)))))
  {
    var f := Int(Hex, ARRAY);
    ReadHexArray(inv, w, t);
    EmitLit('x', f, [inv, w], t);
    EmitLit('0', Lit('x', f), [inv, w], t);
    var u := Emit(f, [inv, w], t);
    ZeroX(u);
    EmitLit(',', Space(Lit('0', Lit('x', f))), [inv, w], t);
  }

  lemma EmitLit(c: char, f: Format, vs: seq<int>, t: string)
    requires Fits(f, vs, t) && !IsSpace(c)
    ensures Fits(Lit(c, f), vs, t) && Emit(Lit(c, f), vs, t) == [c] + Emit(f, vs, t)
    ensures Fits(Space(Lit(c, f)), vs, t) && Emit(Space(Lit(c, f)), vs, t) == [c] + Emit(f, vs, t)
  {
    NoSpaceBefore([c] + Emit(f, vs, t));
  }

  lemma ReadHeader(len: nat, inv: Word, w: Word, t: string)
    requires Stops(t) && inv > 0 && len > 0
    ensures ScanAll(HEADER, Digits(len, 10) + ("," + ("0x" + (Digits(inv, 16) + ("," + ("{" + (Digits(w, 10) + t)))))),
                    3)
            == Got([len, inv, w], t)
  {
    ReadHeaderRest(inv, w, t);
    var u := Emit(HEADER_REST, [inv, w], t);
    var f := Int(Auto, HEADER_REST);
    assert [len, inv, w][1..] == [inv, w];
    assert Emit(f, [len, inv, w], t) == Digits(len, 10) + u && Fits(f, [len, inv, w], t);
    DigitsStart(len, 10, u);
    ScanEmit(HEADER, [len, inv, w], t);
  }

  lemma ReadNextArray(w: Word, t: string)
    requires Stops(t)
    ensures ScanAll(NEXT_ARRAY, "}" + ("," + ("{" + (Digits(w, 10) + t))), 1) == Got([w], t)
  {
    ReadArray(w, t);
    var u := ['}'] + Emit(ARRAY, [w], t);
    assert Emit(Lit('}', ARRAY), [w], t) == u;
    NoSpaceBefore(u);
    ScanEmit(NEXT_ARRAY, [w], t);
  }

  lemma ScanLit(c: char, f: Format, t: string)
    requires !IsSpace(c)
    ensures Scan(Space(Lit(c, f)), [c] + t) == Scan(f, t)
  {
    NoSpaceBefore([c] + t);
    assert ([c] + t)[1..] == t;
    assert Scan(Lit(c, f), [c] + t) == Scan(f, t);
  }

  lemma ReadClose(t: string)
    ensures Scan(CLOSE, "}" + ("}" + t)).1 == SkipSpace(t)
  {
    ScanLit('}', Space(Lit('}', Space(End))), "}" + t);
    ScanLit('}', Space(End), t);
    assert Scan(Space(End), t) == Scan(End, SkipSpace(t));
  }

  lemma SecondBy(s: string, key: RSAPublicKey, w: Word, s1: string, ws: seq<Word>, s2: string)
    requires ScanAll(NEXT_ARRAY, s, 1) == Got([w], s1) && Words(s1, 63) == Got(ws, s2)
    ensures ParseSecond(s, key) == Got(key.(rr := [w] + ws), Scan(CLOSE, s2).1)
  {}

  lemma ReadSecond(key: RSAPublicKey, t: string)
    requires Printable(key)
    ensures ParseSecond(SecondArray(key, t), key.(rr := [])) == Got(key, SkipSpace(t))
  {
    var tail := "}" + ("}" + t);
    var ws := Commas(key.rr[1..], tail);
    JoinCommas(key.rr, tail);
    ReadCommas(key.rr[1..], tail);
    ReadNextArray(key.rr[0], ws);
    ReadClose(t);
    SecondBy(SecondArray(key, t), key.(rr := []), key.rr[0], ws, key.rr[1..], tail);
    assert [key.rr[0]] + key.rr[1..] == key.rr;
  }

  lemma NumbersBy(s: string, exponent: int, inv: Word, w: Word, s1: string, ws: seq<Word>, s2: string)
    requires ScanAll(HEADER, s, 3) == Got([64, inv, w], s1) && Words(s1, 63) == Got(ws, s2)
    ensures ParseNumbers(s, exponent) == ParseSecond(s2, RSAPublicKey(64, inv, [w] + ws, [], exponent))
  {}

  lemma ReadNumbers(key: RSAPublicKey, t: string)
    requires Printable(key)
    ensures ParseNumbers(AfterBrace(key, t), key.exponent) == Got(key, SkipSpace(t))
  {
    var tail := SecondArray(key, t);
    var ws := Commas(key.n[1..], tail);
    JoinCommas(key.n, tail);
    ReadCommas(key.n[1..], tail);
    ReadHeader(|key.n|, key.n0inv, key.n[0], ws);
    NumbersBy(AfterBrace(key, t), key.exponent, key.n0inv, key.n[0], ws, key.n[1..], tail);
    assert [key.n[0]] + key.n[1..] == key.n;
    ReadSecond(key, t);
  }

  /** One printed key parses back to itself, whatever follows it. */
  lemma ReadRendered(key: RSAPublicKey, t: string, garbage: int)
    requires Printable(key)
    ensures ParseKey(Render(key) + t, garbage) == Got(key, SkipSpace(t))
  {
    Regroup(key, t);
    ReadStart(key, AfterBrace(key, t), garbage);
    ReadNumbers(key, t);
  }

  lemma LeadingNewline(s: string, garbage: int)
    ensures ParseKeys("\n" + s, garbage) == ParseKeys(s, garbage)
  {
    assert ("\n" + s)[1..] == s;
    assert SkipSpace("\n" + s) == SkipSpace(s);
    assert Start("\n" + s, garbage) == Start(s, garbage);
    assert ParseKey("\n" + s, garbage) == ParseKey(s, garbage);
  }

  lemma LastEntry(s: string, key: RSAPublicKey, garbage: int)
    requires ParseKey(s, garbage) == Got(key, "")
    ensures ParseKeys(s, garbage) == Some([key])
  {}

  lemma NextEntry(s: string, key: RSAPublicKey, later: string, garbage: int)
    requires ParseKey(s, garbage) == Got(key, "," + later)
    ensures ParseKeys(s, garbage) == Onto([key], ParseKeys(later, garbage))
  {
    assert ("," + later)[1..] == later;
  }

  lemma OneEntry(key: RSAPublicKey, garbage: int)
    requires Printable(key)
    ensures ParseKeys(Render(key) + "\n", garbage) == Some([key])
  {
    ReadRendered(key, "\n", garbage);
    LastEntry(Render(key) + "\n", key, garbage);
  }

  lemma MoreEntries(key: RSAPublicKey, later: string, garbage: int)
    requires Printable(key)
    ensures ParseKeys(Render(key) + (",\n" + later), garbage) == Onto([key], ParseKeys(later, garbage))
  {
    var t := ",\n" + later;
    assert t == "," + ("\n" + later);
    ReadRendered(key, t, garbage);
    NoSpaceBefore(t);
    NextEntry(Render(key) + t, key, "\n" + later, garbage);
    LeadingNewline(later, garbage);
  }

  lemma LineEnds(r: string, later: string)
    ensures r + "" + "\n" + "" == r + "\n"
    ensures r + "," + "\n" + later == r + (",\n" + later)
  {}

  lemma FirstAndRest<T>(s: seq<T>)
    requires s != []
    ensures s == [s[0]] + s[1..]
    ensures |s| == 1 ==> s == [s[0]] && s[1..] == []
  {}

  /** A printed list of keys parses back to exactly those keys. */
  lemma {:induction false} ListingReadsBack(keys: seq<RSAPublicKey>, garbage: int)
    requires keys != [] && forall k :: k in keys ==> Printable(k)
    ensures ParseKeys(Listing(keys), garbage) == Some(keys)
  {
    var key, later := keys[0], Listing(keys[1..]);
    LineEnds(Render(key), later);
    FirstAndRest(keys);
    if |keys| == 1 {
      OneEntry(key, garbage);
    } else {
      MoreEntries(key, later, garbage);
      ListingReadsBack(keys[1..], garbage);
    }
  }

  // ---------------------------------------------------------------- the whole pipeline

  datatype Certificate = Certificate(modulus: nat, exponent: int)

  ghost predicate AllExportable(certs: seq<Certificate>)
  {
    forall i :: 0 <= i < |certs| ==> Exportable(certs[i].modulus, certs[i].exponent)
  }

  function KeysOf(certs: seq<Certificate>): (keys: seq<RSAPublicKey>)
    requires AllExportable(certs)
  {
    seq(|certs|, i requires 0 <= i < |certs| => KeyOf(certs[i].modulus, certs[i].exponent))
  }

  lemma KeysArePrintable(certs: seq<Certificate>)
    requires AllExportable(certs)
    ensures forall i :: 0 <= i < |certs| ==>
              var k := KeysOf(certs)[i];
              Printable(k) && k.Usable() && k.Modulus() == certs[i].modulus && k.exponent == certs[i].exponent
  {
    forall i | 0 <= i < |certs|
      ensures var k := KeysOf(certs)[i];
              Printable(k) && k.Usable() && k.Modulus() == certs[i].modulus && k.exponent == certs[i].exponent
    {
      KeyIsUsable(certs[i].modulus, certs[i].exponent);
    }
  }

  /** What is printed for keys that more certificates follow. */
  function Opening(keys: seq<RSAPublicKey>): string
  {
    if keys == [] then "" else Opening(keys[..|keys| - 1]) + Render(keys[|keys| - 1]) + ",\n"
  }

  lemma Spliced(o: string, a: string, r: string, end: string)
    ensures (o + a + ",\n") + r + end == o + (a + "," + "\n" + (r + end))
    ensures r + "" + "\n" + "" == r + "\n" && "" + r == r
  {}

  /** The text of a whole list is the opening and the last key's line. */
  lemma {:induction false} ListingIs(keys: seq<RSAPublicKey>, later: seq<RSAPublicKey>)
    requires later != []
    ensures Listing(keys + later) == Opening(keys) + Listing(later)
  {
    if keys == [] {
      assert keys + later == later;
    } else {
      var k := |keys| - 1;
      var more := [keys[k]] + later;
      assert keys + later == keys[..k] + more && more[1..] == later;
      ListingIs(keys[..k], more);
      Spliced(Opening(keys[..k]), Render(keys[k]), Listing(later), "");
      assert Listing(later) + "" == Listing(later);
    }
  }

  lemma LastLine(keys: seq<RSAPublicKey>, key: RSAPublicKey)
    ensures Listing(keys + [key]) == Opening(keys) + Render(key) + "\n"
  {
    ListingIs(keys, [key]);
    Spliced(Opening(keys), "", Render(key), "\n");
  }

  /** The first certificate whose key is refused, or the number of certificates. */
  ghost function FirstRefused(certs: seq<Certificate>): (n: nat)
    ensures n <= |certs| && AllExportable(certs[..n])
    ensures n < |certs| ==> !Exportable(certs[n].modulus, certs[n].exponent)
  {
    var k := |certs| - 1;
    if certs == [] then 0
    else
      var n := FirstRefused(certs[..k]);
      assert certs[..k][..n] == certs[..n];
      if n < k || !Exportable(certs[k].modulus, certs[k].exponent) then n else
        assert certs[..k + 1] == certs && certs[..n] == certs[..k];
        k + 1
  }

  lemma ExportableAt(certs: seq<Certificate>, n: nat, k: nat)
    requires k < n <= |certs| && AllExportable(certs[..n])
    ensures Exportable(certs[k].modulus, certs[k].exponent)
  {
    assert certs[..n][k] == certs[k];
  }

  lemma RefusedAt(certs: seq<Certificate>, i: nat)
    requires i < |certs| && AllExportable(certs[..i]) && !Exportable(certs[i].modulus, certs[i].exponent)
    ensures FirstRefused(certs) == i
  {
    var n := FirstRefused(certs);
    if n < i { ExportableAt(certs, i, n); }
    if i < n { ExportableAt(certs, n, i); }
  }

  lemma ExportableNext(certs: seq<Certificate>, i: nat)
    requires i < |certs| && AllExportable(certs[..i]) && Exportable(certs[i].modulus, certs[i].exponent)
    ensures AllExportable(certs[..i + 1])
    ensures KeysOf(certs[..i + 1]) == KeysOf(certs[..i]) + [KeyOf(certs[i].modulus, certs[i].exponent)]
  {
    hide Exportable, KeyOf;
    var c := certs[..i + 1];
    forall j | 0 <= j < |c|
      ensures Exportable(c[j].modulus, c[j].exponent)
    {
      if j < i { ExportableAt(certs, i, j); }
    }
    KeysSnoc(certs[..i], certs[i]);
    assert c == certs[..i] + [certs[i]];
  }

  lemma KeysSnoc(certs: seq<Certificate>, last: Certificate)
    requires AllExportable(certs) && AllExportable(certs + [last])
    ensures Exportable(last.modulus, last.exponent)
    ensures KeysOf(certs + [last]) == KeysOf(certs) + [KeyOf(last.modulus, last.exponent)]
  {
    hide Exportable, KeyOf;
    assert (certs + [last])[|certs|] == last;
  }

  /** What main has printed after i certificates. */
  ghost predicate PrintedTo(certs: seq<Certificate>, out: string, i: nat)
    requires i <= |certs|
  {
    && AllExportable(certs[..i])
    && out == if 0 < i == |certs| then Listing(KeysOf(certs[..i])) else Opening(KeysOf(certs[..i]))
  }

  lemma PrintedNext(certs: seq<Certificate>, out: string, i: nat, text: string)
    requires i < |certs| && PrintedTo(certs, out, i) && Exportable(certs[i].modulus, certs[i].exponent)
    requires text == Render(KeyOf(certs[i].modulus, certs[i].exponent))
    ensures PrintedTo(certs, out + text + ((if i < |certs| - 1 then "," else "") + "\n"), i + 1)
  {
    hide Render, KeyOf;
    var keys, key := KeysOf(certs[..i]), KeyOf(certs[i].modulus, certs[i].exponent);
    ExportableNext(certs, i);
    LastLine(keys, key);
    assert (keys + [key])[..i] == keys;
    assert "," + "\n" == ",\n" && "" + "\n" == "\n";
  }

  lemma NothingPrinted(certs: seq<Certificate>)
    ensures PrintedTo(certs, "", 0)
  {
    assert KeysOf(certs[..0]) == [];
  }

  /** main: prints every key, or stops at the first certificate whose key is refused, with the lines before it
      printed. */
  method DumpAll(certs: seq<Certificate>) returns (ok: bool, out: string)
    ensures ok <==> certs != [] && FirstRefused(certs) == |certs|
    ensures ok ==> AllExportable(certs) && out == Listing(KeysOf(certs))
    ensures !ok ==> out == Opening(KeysOf(certs[..FirstRefused(certs)]))
  {
    hide Exportable, KeyOf, Render, Listing, Opening;
    out := "";
    NothingPrinted(certs);
    if |certs| < 1 {
      return false, out;
    }
    var i := 0;
    while i < |certs|
      invariant 0 <= i <= |certs| && PrintedTo(certs, out, i)
    {
      var text := Print(certs[i].modulus, certs[i].exponent);
      if !text.Ok? {
        RefusedAt(certs, i);
        return false, out;
      }
      PrintedNext(certs, out, i, text.value);
      out := out + text.value;
      out := out + ((if i < |certs| - 1 then "," else "") + "\n");
      i := i + 1;
    }
    assert certs[..i] == certs;
    NoneRefused(certs);
    return true, out;
  }

  lemma NoneRefused(certs: seq<Certificate>)
    ensures FirstRefused(certs) == |certs| <==> AllExportable(certs)
  {
    var n := FirstRefused(certs);
    if n == |certs| { assert certs[..n] == certs; }
  }

  /** Whatever list of certificates is printed, loading the text gives usable keys with the same moduli and
      exponents. */
  lemma PrintLoadRoundTrip(certs: seq<Certificate>, garbage: int)
    requires certs != [] && AllExportable(certs)
    ensures ParseKeys(Listing(KeysOf(certs)), garbage) == Some(KeysOf(certs))
    ensures forall i :: 0 <= i < |certs| ==>
              var k := KeysOf(certs)[i];
              k.len == 64 && k.Usable() && k.Modulus() == certs[i].modulus && k.exponent == certs[i].exponent
  {
    KeysArePrintable(certs);
    ListingReadsBack(KeysOf(certs), garbage);
  }
}
