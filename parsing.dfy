/**
 * Text handling shared by the OBJ and MTL loaders: whitespace-separated
 * words as `operator>>` on a stream produces them, `std::stoi`, and the
 * values the loaders store.
 */
module Parsing {

  datatype Option<T> = None | Some(value: T)

  // ---------------------------------------------------------------------
  // Words
  // ---------------------------------------------------------------------

  /** The characters `std::isspace` accepts in the "C" locale. */
  predicate IsSpace(c: char) {
    c == ' ' || c == '\t' || c == '\n' || c == '\r' || c == '\U{B}' || c == '\U{C}'
  }

  /** What one `>>` into a `std::string` can produce: a non-empty run of non-space characters. */
  predicate IsWord(w: string) {
    |w| > 0 && forall i :: 0 <= i < |w| ==> !IsSpace(w[i])
  }

  /** Length of the longest prefix of `s` free of white space. */
  function WordLength(s: string): (n: nat)
    ensures n <= |s|
    ensures forall i :: 0 <= i < n ==> !IsSpace(s[i])
    ensures n == |s| || IsSpace(s[n])
  {
    if s == [] || IsSpace(s[0]) then 0 else 1 + WordLength(s[1..])
  }

  /**
   * The words that successive `>>` extractions into a `std::string` read
   * from `s`: each extraction skips leading white space and then takes
   * the longest run of non-space characters.
   */
  function Words(s: string): (ws: seq<string>)
    ensures forall i :: 0 <= i < |ws| ==> IsWord(ws[i])
    decreases |s|
  {
    if s == [] then []
    else if IsSpace(s[0]) then Words(s[1..])
    else
      var n := WordLength(s);
      [s[..n]] + Words(s[n..])
  }

  /** The words of `ws` written out with one blank between neighbours. */
  function Unwords(ws: seq<string>): string {
    if ws == [] then ""
    else if |ws| == 1 then ws[0]
    else ws[0] + " " + Unwords(ws[1..])
  }

  predicate AllSpace(s: string) {
    forall i :: 0 <= i < |s| ==> IsSpace(s[i])
  }

  /** Text made only of white space holds no word. */
  lemma {:induction false} WordsOfSpaces(sp: string)
    requires AllSpace(sp)
    ensures Words(sp) == []
    decreases |sp|
  {
    if sp != [] {
      assert AllSpace(sp[1..]) by {
        forall i | 0 <= i < |sp| - 1 ensures IsSpace(sp[1..][i]) {
          assert sp[1..][i] == sp[i + 1];
        }
      }
      WordsOfSpaces(sp[1..]);
    }
  }

  /**
   * Leading white space is skipped and a word ends at the first white space
   * after it: the first word of `sp + w + t` is `w`, and the others are
   * those of `t`.
   */
  lemma {:induction false} WordsAfterSpaces(sp: string, w: string, t: string)
    requires AllSpace(sp) && IsWord(w)
    requires t == [] || IsSpace(t[0])
    ensures Words(sp + w + t) == [w] + Words(t)
    decreases |sp|
  {
    var s := sp + w + t;
    if sp == [] {
      assert s == w + t;
      assert !IsSpace(s[0]);
      WordLengthOfWord(w, t);
      assert s[..|w|] == w && s[|w|..] == t;
    } else {
      assert s[0] == sp[0] && IsSpace(s[0]);
      assert s[1..] == sp[1..] + w + t;
      assert AllSpace(sp[1..]) by {
        forall i | 0 <= i < |sp| - 1 ensures IsSpace(sp[1..][i]) {
          assert sp[1..][i] == sp[i + 1];
        }
      }
      WordsAfterSpaces(sp[1..], w, t);
    }
  }

  lemma WordLengthOfWord(w: string, t: string)
    requires IsWord(w)
    requires t == [] || IsSpace(t[0])
    ensures WordLength(w + t) == |w|
    decreases |w|
  {
    if |w| > 1 {
      assert (w + t)[1..] == w[1..] + t;
      WordLengthOfWord(w[1..], t);
    }
  }

  /** Splitting text written by `Unwords` gives the words back. */
  lemma {:induction false} WordsOfUnwords(ws: seq<string>)
    requires forall i :: 0 <= i < |ws| ==> IsWord(ws[i])
    ensures Words(Unwords(ws)) == ws
  {
    if ws == [] {
    } else if |ws| == 1 {
      var w := ws[0];
      WordLengthOfWord(w, []);
      assert w + [] == w;
      assert w[|w|..] == [];
    } else {
      var w, rest := ws[0], Unwords(ws[1..]);
      var s := w + " " + rest;
      assert s == w + (" " + rest);
      WordLengthOfWord(w, " " + rest);
      assert s[..|w|] == w;
      assert s[|w|..] == " " + rest;
      assert (" " + rest)[1..] == rest;
      WordsOfUnwords(ws[1..]);
    }
  }

  // ---------------------------------------------------------------------
  // std::stoi
  // ---------------------------------------------------------------------

  /** The exceptions `std::stoi` throws. */
  datatype StoiError = InvalidArgument | OutOfRange

  datatype Result<T> = Ok(value: T) | Err(error: StoiError)

  /** The range of a 32-bit `int`. */
  const INT_MIN: int := -0x8000_0000
  const INT_MAX: int := 0x7FFF_FFFF

  predicate IsDigit(c: char) {
    '0' <= c <= '9'
  }

  predicate AllDigits(s: string) {
    forall i :: 0 <= i < |s| ==> IsDigit(s[i])
  }

  /** Length of the longest prefix of `s` made of decimal digits. */
  function DigitCount(s: string): (n: nat)
    ensures n <= |s|
    ensures AllDigits(s[..n])
    ensures n == |s| || !IsDigit(s[n])
  {
    if s == [] || !IsDigit(s[0]) then 0
    else
      var n := 1 + DigitCount(s[1..]);
      assert s[..n] == [s[0]] + s[1..][..n - 1];
      n
  }

  /** Length of the longest prefix of `s` made of white space. */
  function SpaceCount(s: string): (n: nat)
    ensures n <= |s|
    ensures AllSpace(s[..n])
    ensures n == |s| || !IsSpace(s[n])
  {
    if s == [] || !IsSpace(s[0]) then 0
    else
      var n := 1 + SpaceCount(s[1..]);
      assert s[..n] == [s[0]] + s[1..][..n - 1];
      n
  }

  function DigitValue(c: char): nat
    requires IsDigit(c)
  {
    c as int - '0' as int
  }

  /** The number a string of decimal digits denotes, most significant first. */
  function DigitsValue(ds: string): nat
    requires AllDigits(ds)
  {
    if ds == [] then 0
    else DigitsValue(ds[..|ds| - 1]) * 10 + DigitValue(ds[|ds| - 1])
  }

  /** What follows an optional leading sign. */
  function Unsigned(t: string): (u: string)
    ensures |t| > 0 && (t[0] == '-' || t[0] == '+') ==> u == t[1..]
    ensures !(|t| > 0 && (t[0] == '-' || t[0] == '+')) ==> u == t
  {
    if |t| > 0 && (t[0] == '-' || t[0] == '+') then t[1..] else t
  }

  /**
   * `std::stoi(s)` in base 10: white space is skipped, an optional sign is
   * read, then the longest run of digits; anything after it is ignored.
   * No digit at all throws `invalid_argument`; a value outside the range
   * of `int` throws `out_of_range`.
   */
  function Stoi(s: string): (r: Result<int>)
    ensures r.Ok? ==> INT_MIN <= r.value <= INT_MAX
    ensures s == [] ==> r == Err(InvalidArgument)
  {
    var t := s[SpaceCount(s)..];
    var negative := |t| > 0 && t[0] == '-';
    var u := Unsigned(t);
    var n := DigitCount(u);
    if n == 0 then Err(InvalidArgument)
    else
      var magnitude: int := DigitsValue(u[..n]);
      var v: int := if negative then -magnitude else magnitude;
      if v < INT_MIN || INT_MAX < v then Err(OutOfRange) else Ok(v)
  }

  /**
   * `invalid_argument` is thrown exactly when no digit follows the white
   * space and the optional sign: `""`, `"-"`, `"x1"` and `" +/"` throw it,
   * `"+5"` and `"007"` do not.
   */
  lemma StoiInvalidArgument(s: string)
    ensures Stoi(s) == Err(InvalidArgument) <==> DigitCount(Unsigned(s[SpaceCount(s)..])) == 0
  {
  }

  /** Leading zeros do not change the value of a numeral. */
  lemma {:induction false} DigitsValueLeadingZero(ds: string)
    requires AllDigits(ds)
    ensures AllDigits("0" + ds) && DigitsValue("0" + ds) == DigitsValue(ds)
    decreases |ds|
  {
    var z := "0" + ds;
    assert AllDigits(z) by {
      forall i | 0 <= i < |z| ensures IsDigit(z[i]) {
        if i > 0 { assert z[i] == ds[i - 1]; }
      }
    }
    if ds != [] {
      var init := ds[..|ds| - 1];
      assert z[..|z| - 1] == "0" + init;
      assert z[|z| - 1] == ds[|ds| - 1];
      DigitsValueLeadingZero(init);
    }
  }

  /** White space followed by text that does not start with white space is skipped whole. */
  lemma {:induction false} SpaceCountOfSpaces(sp: string, t: string)
    requires AllSpace(sp)
    requires t == [] || !IsSpace(t[0])
    ensures SpaceCount(sp + t) == |sp| && (sp + t)[|sp|..] == t
    decreases |sp|
  {
    if sp == [] {
      assert sp + t == t;
    } else {
      assert (sp + t)[1..] == sp[1..] + t;
      assert AllSpace(sp[1..]) by {
        forall i | 0 <= i < |sp| - 1 ensures IsSpace(sp[1..][i]) {
          assert sp[1..][i] == sp[i + 1];
        }
      }
      SpaceCountOfSpaces(sp[1..], t);
    }
  }

  /** Leading white space does not change what `std::stoi` reads. */
  lemma StoiAfterSpaces(sp: string, t: string)
    requires AllSpace(sp)
    requires t == [] || !IsSpace(t[0])
    ensures Stoi(sp + t) == Stoi(t)
  {
    SpaceCountOfSpaces(sp, t);
    assert t[0..] == t;
  }

  /** The value of a run of digits with one sign character `c` before it. */
  function Signed(c: char, ds: string): int
    requires AllDigits(ds)
  {
    if c == '-' then -(DigitsValue(ds) as int) else DigitsValue(ds)
  }

  /**
   * A sign, a run of digits, and then nothing or a non-digit: `+` keeps the
   * value of the digits and `-` negates it, and a value outside the range
   * of `int` throws `out_of_range`.
   */
  lemma StoiOfSignedRun(c: char, ds: string, rest: string)
    requires c == '-' || c == '+'
    requires |ds| > 0 && AllDigits(ds)
    requires rest == [] || !IsDigit(rest[0])
    ensures Stoi([c] + ds + rest) == if INT_MIN <= Signed(c, ds) <= INT_MAX then Ok(Signed(c, ds)) else Err(OutOfRange)
  {
    var u := ds + rest;
    var t := [c] + ds + rest;
    assert t == [c] + u && t[0] == c && !IsSpace(c);
    assert SpaceCount(t) == 0 && t[0..] == t;
    assert Unsigned(t) == u;
    DigitCountOfDigits(ds, rest);
    assert u[..|ds|] == ds;
  }

  /**
   * A run of digits followed by nothing or by a non-digit: the digits give
   * the value, leading zeros included, and a value above the range of
   * `int` throws `out_of_range`.
   */
  lemma StoiOfRun(ds: string, rest: string)
    requires |ds| > 0 && AllDigits(ds)
    requires rest == [] || !IsDigit(rest[0])
    ensures Stoi(ds + rest) == if DigitsValue(ds) <= INT_MAX then Ok(DigitsValue(ds)) else Err(OutOfRange)
  {
    var t := ds + rest;
    assert t[0] == ds[0] && IsDigit(t[0]) && !IsSpace(t[0]);
    assert SpaceCount(t) == 0 && t[0..] == t;
    assert Unsigned(t) == t;
    DigitCountOfDigits(ds, rest);
    assert t[..|ds|] == ds;
  }

  function DigitChar(d: nat): (c: char)
    requires d < 10
    ensures IsDigit(c) && DigitValue(c) == d
  {
    ('0' as int + d) as char
  }

  /** The decimal numeral of `n`, without leading zeros. */
  function NatToString(n: nat): (s: string)
    ensures |s| > 0 && AllDigits(s)
  {
    if n < 10 then [DigitChar(n)] else NatToString(n / 10) + [DigitChar(n % 10)]
  }

  /** The decimal numeral of `n` as `std::to_string` writes it. */
  function IntToString(n: int): (s: string)
    ensures |s| > 0 && !IsSpace(s[0])
  {
    if n < 0 then "-" + NatToString(-n) else NatToString(n)
  }

  lemma {:induction false} DigitsValueOfNatToString(n: nat)
    ensures DigitsValue(NatToString(n)) == n
  {
    if n >= 10 {
      var p := NatToString(n / 10);
      var s := p + [DigitChar(n % 10)];
      assert s[..|s| - 1] == p;
      DigitsValueOfNatToString(n / 10);
    }
  }

  lemma {:induction false} DigitCountOfDigits(ds: string, rest: string)
    requires AllDigits(ds)
    requires rest == [] || !IsDigit(rest[0])
    ensures DigitCount(ds + rest) == |ds|
  {
    if ds != [] {
      assert (ds + rest)[1..] == ds[1..] + rest;
      DigitCountOfDigits(ds[1..], rest);
    } else {
      assert ds + rest == rest;
    }
  }

  /** The longest run of digits at the start of a numeral followed by a non-digit is the numeral. */
  lemma DigitsOfNumeral(m: nat, rest: string)
    requires rest == [] || !IsDigit(rest[0])
    ensures DigitCount(NatToString(m) + rest) == |NatToString(m)|
    ensures (NatToString(m) + rest)[..|NatToString(m)|] == NatToString(m)
    ensures DigitsValue(NatToString(m)) == m
  {
    DigitCountOfDigits(NatToString(m), rest);
    DigitsValueOfNatToString(m);
  }

  lemma StoiOfNatNumeral(m: nat, rest: string)
    requires rest == [] || !IsDigit(rest[0])
    ensures Stoi(NatToString(m) + rest) == if m <= INT_MAX then Ok(m) else Err(OutOfRange)
  {
    var s := NatToString(m) + rest;
    assert SpaceCount(s) == 0 && s[0..] == s;
    DigitsOfNumeral(m, rest);
  }

  lemma StoiOfNegativeNumeral(m: nat, rest: string)
    requires rest == [] || !IsDigit(rest[0])
    ensures Stoi("-" + NatToString(m) + rest) == if INT_MIN <= -(m as int) then Ok(-(m as int)) else Err(OutOfRange)
  {
    var u := NatToString(m) + rest;
    var s := "-" + NatToString(m) + rest;
    assert s == "-" + u;
    assert s[0] == '-' && !IsSpace(s[0]);
    assert SpaceCount(s) == 0 && s[0..] == s && s[1..] == u;
    DigitsOfNumeral(m, rest);
    var n := DigitCount(u);
    assert n == |NatToString(m)| && n > 0;
    assert DigitsValue(u[..n]) == m;
  }

  /**
   * `std::stoi` reads back what `IntToString` writes, whatever follows the
   * numeral, provided that it does not start with a digit; a numeral
   * outside the range of `int` is refused with `out_of_range`.
   */
  lemma StoiOfIntToString(n: int, rest: string)
    requires rest == [] || !IsDigit(rest[0])
    ensures Stoi(IntToString(n) + rest) == if INT_MIN <= n <= INT_MAX then Ok(n) else Err(OutOfRange)
  {
    if n < 0 {
      StoiOfNegativeNumeral(-n, rest);
    } else {
      StoiOfNatNumeral(n, rest);
    }
  }

  /** `std::stoi(s) - 1`: an OBJ index, which counts from 1, made to count from 0. */
  function ZeroBasedIndex(s: string): (r: Result<int>)
    ensures Stoi(s).Ok? <==> r.Ok?
    ensures r.Ok? ==> r.value == Stoi(s).value - 1
    ensures r.Err? ==> r.error == Stoi(s).error
  {
    match Stoi(s)
    case Err(e) => Err(e)
    case Ok(n) => Ok(n - 1)
  }

  /** The numeral of a 1-based index in the range of `int` reads back as the 0-based index. */
  lemma ZeroBasedIndexOfNumeral(n: int)
    requires INT_MIN <= n <= INT_MAX
    ensures ZeroBasedIndex(IntToString(n)) == Ok(n - 1)
  {
    StoiOfIntToString(n, []);
    assert IntToString(n) + [] == IntToString(n);
  }

  /**
   * Converts each of `xs` in order; the first conversion that throws ends
   * the whole and its exception is the result.
   */
  function ConvertAll<X, T>(xs: seq<X>, convert: X -> Result<T>): (r: Result<seq<T>>)
    ensures r.Ok? ==> |r.value| == |xs|
    decreases |xs|
  {
    if xs == [] then Ok([])
    else
      match ConvertAll(xs[..|xs| - 1], convert)
      case Err(e) => Err(e)
      case Ok(ys) =>
        match convert(xs[|xs| - 1])
        case Err(e) => Err(e)
        case Ok(y) => Ok(ys + [y])
  }

  /**
   * The conversion succeeds exactly when every element converts, and then
   * it holds one result per element, in order.
   */
  lemma {:induction false} ConvertAllOk<X, T>(xs: seq<X>, convert: X -> Result<T>)
    ensures ConvertAll(xs, convert).Ok? <==> forall k :: 0 <= k < |xs| ==> convert(xs[k]).Ok?
    ensures ConvertAll(xs, convert).Ok? ==>
              |ConvertAll(xs, convert).value| == |xs| &&
              forall k :: 0 <= k < |xs| ==> ConvertAll(xs, convert).value[k] == convert(xs[k]).value
    decreases |xs|
  {
    if xs != [] {
      var init, last := xs[..|xs| - 1], xs[|xs| - 1];
      ConvertAllOk(init, convert);
      assert forall k :: 0 <= k < |init| ==> init[k] == xs[k];
      if ConvertAll(init, convert).Ok? && convert(last).Ok? {
        var r := ConvertAll(init, convert).value + [convert(last).value];
        assert ConvertAll(xs, convert) == Ok(r);
        assert forall k :: 0 <= k < |xs| ==> r[k] == convert(xs[k]).value;
      }
    }
  }

  /** When the elements before `k` convert and `xs[k]` throws, its exception is the result. */
  lemma {:induction false} ConvertAllFirstError<X, T>(xs: seq<X>, convert: X -> Result<T>, k: nat)
    requires k < |xs|
    requires forall j :: 0 <= j < k ==> convert(xs[j]).Ok?
    requires convert(xs[k]).Err?
    ensures ConvertAll(xs, convert) == Err(convert(xs[k]).error)
    decreases |xs|
  {
    var init := xs[..|xs| - 1];
    if k < |xs| - 1 {
      assert forall j :: 0 <= j <= k ==> init[j] == xs[j];
      ConvertAllFirstError(init, convert, k);
    } else {
      assert forall j :: 0 <= j < k ==> init[j] == xs[j];
      ConvertAllOk(init, convert);
    }
  }

  /** Once a prefix throws, the whole throws the same exception. */
  lemma {:induction false} ConvertAllErrExtends<X, T>(xs: seq<X>, convert: X -> Result<T>, k: nat)
    requires k <= |xs|
    requires ConvertAll(xs[..k], convert).Err?
    ensures ConvertAll(xs, convert) == ConvertAll(xs[..k], convert)
    decreases |xs| - k
  {
    if k < |xs| {
      assert xs[..k + 1][..k] == xs[..k];
      ConvertAllErrExtends(xs, convert, k + 1);
    } else {
      assert xs[..k] == xs;
    }
  }

  // ---------------------------------------------------------------------
  // Values read by the loaders
  // ---------------------------------------------------------------------

  /**
   * A `float` read with `>>`. Decimal-to-binary conversion is not modelled:
   * a value is the word it was read from, or `Indeterminate` when the
   * variable was never successfully read and was never initialised.
   */
  datatype Float = Parsed(text: string) | Indeterminate

  /** A `glm::vec3` of floats. */
  datatype Vec3 = Vec3(x: Float, y: Float, z: Float)

  /**
   * The value held by a float variable after `>>` tried to read word `k`
   * of `ws`: that word if there is one, or else `prior`, because an
   * extraction on an exhausted stream leaves its target untouched.
   */
  function ReadFloat(ws: seq<string>, k: nat, prior: Float): (f: Float)
    ensures k < |ws| ==> f == Parsed(ws[k])
    ensures |ws| <= k ==> f == prior
  {
    if k < |ws| then Parsed(ws[k]) else prior
  }

  /** Position of the first `'/'` in `s`, or `|s|` when there is none. */
  function SlashPos(s: string): (n: nat)
    ensures n <= |s|
    ensures forall i :: 0 <= i < n ==> s[i] != '/'
    ensures n < |s| ==> s[n] == '/'
  {
    if s == [] || s[0] == '/' then 0 else 1 + SlashPos(s[1..])
  }

  predicate NoSlash(s: string) {
    forall i :: 0 <= i < |s| ==> s[i] != '/'
  }

  lemma {:induction false} SlashPosOf(a: string, rest: string)
    requires NoSlash(a)
    requires rest == [] || rest[0] == '/'
    ensures SlashPos(a + rest) == |a|
    ensures (a + rest)[..|a|] == a
    decreases |a|
  {
    var w := a + rest;
    if a != [] {
      assert w[0] == a[0] && a[0] != '/';
      assert w[1..] == a[1..] + rest;
      assert NoSlash(a[1..]) by {
        forall i | 0 <= i < |a| - 1 ensures a[1..][i] != '/' {
          assert a[1..][i] == a[i + 1];
        }
      }
      SlashPosOf(a[1..], rest);
      assert SlashPos(w) == 1 + SlashPos(w[1..]);
    } else {
      assert w == rest;
    }
  }

  // ---------------------------------------------------------------------
  // How a loader ends
  // ---------------------------------------------------------------------

  /** Why a loader stops before the end of its input. */
  datatype Abort =
    | Threw(error: StoiError)   // `std::stoi` threw; the exception leaves the loader
    | HeaderOverflow            // a header word overran `char lineHeader[128]`

  /** What a loader's caller observes. */
  datatype LoadStatus = Loaded | CannotOpen | Aborted(cause: Abort)

  /** The state a loader's loop ends in, or the state it was in when it stopped. */
  datatype Outcome<S> = Completed(state: S) | Stopped(cause: Abort, state: S)
}
