/** The few PHP built-ins the role logic and the controllers rely on, over
    strings as sequences of characters: `trim` with its default character
    set, lower-casing (ASCII letters only), `explode(',')` and `implode(',')`,
    and PHP's truthiness of strings and scalars. */
module Php {

  datatype Option<+T> = None | Some(value: T)

  /** The characters `trim` strips when no character list is given:
      space, tab, line feed, carriage return, NUL and vertical tab. */
  predicate IsTrimChar(c: char) {
    c == ' ' || c == '\t' || c == '\n' || c == '\r' || c as int == 0 || c as int == 11
  }

  /** Neither end of `s` is a character `trim` would strip. */
  predicate IsTrimmed(s: string) {
    s == [] || (!IsTrimChar(s[0]) && !IsTrimChar(s[|s| - 1]))
  }

  /** `ltrim($s)`: the longest suffix of `s` that does not start with a trim character. */
  function TrimLeft(s: string): (r: string)
    ensures |r| <= |s| && r == s[|s| - |r|..]
    ensures forall i :: 0 <= i < |s| - |r| ==> IsTrimChar(s[i])
    ensures r == [] || !IsTrimChar(r[0])
  {
    if s != [] && IsTrimChar(s[0]) then TrimLeft(s[1..]) else s
  }

  /** `rtrim($s)`: the longest prefix of `s` that does not end with a trim character. */
  function TrimRight(s: string): (r: string)
    ensures |r| <= |s| && r == s[..|r|]
    ensures forall i :: |r| <= i < |s| ==> IsTrimChar(s[i])
    ensures r == [] || !IsTrimChar(r[|r| - 1])
  {
    if s != [] && IsTrimChar(s[|s| - 1]) then TrimRight(s[..|s| - 1]) else s
  }

  /** `trim($s)`: the result is trimmed, is `s` itself exactly when `s` was
      already trimmed, and holds no character `s` did not hold;
      TrimRemovesEndsOnly shows it is the slice of `s` between its leading
      and trailing trim characters. */
  function Trim(s: string): (r: string)
    ensures IsTrimmed(r)
    ensures r == s <==> IsTrimmed(s)
    ensures forall c :: c in r ==> c in s
  {
    var l := TrimLeft(s);
    var r := TrimRight(l);
    assert r != [] ==> r[0] == l[0];
    r
  }

  predicate AllTrimChars(s: string) {
    forall k :: 0 <= k < |s| ==> IsTrimChar(s[k])
  }

  /** `trim` removes trim characters from the two ends of `s` and nowhere
      else: the result is a slice of `s`, and everything before and after
      that slice is a trim character. */
  lemma TrimRemovesEndsOnly(s: string)
    ensures exists i, j :: 0 <= i <= j <= |s| && Trim(s) == s[i..j] && AllTrimChars(s[..i]) && AllTrimChars(s[j..])
  {
    var l := TrimLeft(s);
    var r := TrimRight(l);
    var i := |s| - |l|;
    var j := i + |r|;
    TrimLeftDropsPrefix(s);
    TrimRightDropsSuffix(l);
    assert l == s[i..];
    assert s[i..j] == l[..|r|] && s[j..] == l[|r|..];
    assert Trim(s) == s[i..j] && AllTrimChars(s[..i]) && AllTrimChars(s[j..]);
  }

  lemma TrimLeftDropsPrefix(s: string)
    ensures AllTrimChars(s[..|s| - |TrimLeft(s)|])
  {
    var p := s[..|s| - |TrimLeft(s)|];
    forall k | 0 <= k < |p|
      ensures IsTrimChar(p[k])
    {
      assert p[k] == s[k];
    }
  }

  lemma TrimRightDropsSuffix(l: string)
    ensures AllTrimChars(l[|TrimRight(l)|..])
  {
    var q := l[|TrimRight(l)|..];
    forall k | 0 <= k < |q|
      ensures IsTrimChar(q[k])
    {
      assert q[k] == l[|TrimRight(l)| + k];
    }
  }

  /** A trimmed word padded with one space on each side trims back to itself. */
  lemma TrimPadded(w: string)
    requires w != [] && IsTrimmed(w)
    ensures Trim(" " + w + " ") == w
  {
    var padded := " " + w + " ";
    assert padded[1..] == w + " ";
    assert TrimLeft(w + " ") == w + " ";
    assert TrimLeft(padded) == w + " ";
    assert (w + " ")[..|w|] == w;
    assert TrimRight(w) == w;
    assert TrimRight(w + " ") == w;
  }

  /** A string of trim characters only trims to the empty string. */
  lemma TrimOfBlank(s: string)
    requires forall c :: c in s ==> IsTrimChar(c)
    ensures Trim(s) == ""
  {
    HeadIn(Trim(s));
  }

  lemma HeadIn(r: string)
    ensures r != [] ==> r[0] in r
  {
  }

  /** `array_map('trim', $xs)`. */
  function TrimAll(xs: seq<string>): (r: seq<string>)
    ensures |r| == |xs|
    ensures forall i :: 0 <= i < |xs| ==> r[i] == Trim(xs[i])
  {
    seq(|xs|, i requires 0 <= i < |xs| => Trim(xs[i]))
  }

  lemma TrimAllAppend(xs: seq<string>, ys: seq<string>)
    ensures TrimAll(xs + ys) == TrimAll(xs) + TrimAll(ys)
  {
  }

  lemma TrimAllSingle(x: string)
    ensures TrimAll([x]) == [Trim(x)]
  {
  }

  predicate IsUpper(c: char) { 'A' <= c <= 'Z' }

  function LowerChar(c: char): char {
    if IsUpper(c) then (c as int + 32) as char else c
  }

  /** `Str::lower($s)`, over ASCII letters: no upper-case letter is left,
      every other character is kept, and the length does not change. */
  function Lower(s: string): (r: string)
    ensures |r| == |s|
    ensures forall i :: 0 <= i < |r| ==> !IsUpper(r[i])
    ensures forall i :: 0 <= i < |s| && !IsUpper(s[i]) ==> r[i] == s[i]
    ensures forall i :: 0 <= i < |s| && IsUpper(s[i]) ==> r[i] as int == s[i] as int + 32
  {
    seq(|s|, i requires 0 <= i < |s| => LowerChar(s[i]))
  }

  /** Only "0" lower-cases to "0", and only "" to "". */
  lemma LowerOfFalsy(s: string)
    ensures Lower(s) == "0" <==> s == "0"
    ensures Lower(s) == "" <==> s == ""
  {
    if Lower(s) == "0" {
      assert |s| == 1 && !IsUpper('0');
      assert !IsUpper(s[0]);
    }
  }

  /** `explode(',', $s)`: the pieces between commas, always at least one. */
  function Explode(s: string): (parts: seq<string>)
    ensures |parts| >= 1
    ensures ',' !in s ==> parts == [s]
  {
    if s == [] then [""]
    else
      var rest := Explode(s[1..]);
      if s[0] == ',' then [""] + rest
      else
        assert ',' !in s ==> ',' !in s[1..] && [s[0]] + s[1..] == s;
        [[s[0]] + rest[0]] + rest[1..]
  }

  /** No piece of `explode` holds the separator. */
  lemma {:induction false} ExplodePiecesHaveNoComma(s: string)
    ensures forall k :: 0 <= k < |Explode(s)| ==> ',' !in Explode(s)[k]
  {
    if s != [] {
      var c, t := s[0], s[1..];
      assert s == [c] + t;
      ExplodePiecesHaveNoComma(t);
      ExplodeCons(c, t);
      var rest := Explode(t);
      if c != ',' {
        assert ',' !in [c] + rest[0];
      }
    }
  }

  /** `implode(',', $parts)`. */
  function Join(parts: seq<string>): string
  {
    if parts == [] then ""
    else if |parts| == 1 then parts[0]
    else parts[0] + "," + Join(parts[1..])
  }

  /** One step of `explode`: the first character either closes an empty
      piece (a comma) or starts the first piece. */
  lemma ExplodeCons(c: char, t: string)
    ensures Explode([c] + t) ==
      if c == ',' then [""] + Explode(t) else [[c] + Explode(t)[0]] + Explode(t)[1..]
  {
    assert ([c] + t)[0] == c && ([c] + t)[1..] == t;
  }

  lemma PrependToFirst(c: char, xs: seq<string>, ys: seq<string>)
    requires |xs| >= 1
    ensures [[c] + (xs + ys)[0]] + (xs + ys)[1..] == ([[c] + xs[0]] + xs[1..]) + ys
  {
    assert (xs + ys)[0] == xs[0];
    assert (xs + ys)[1..] == xs[1..] + ys;
  }

  /** Splitting at a comma splits the pieces at that point. */
  lemma {:induction false} ExplodeAtComma(a: string, b: string)
    ensures Explode(a + "," + b) == Explode(a) + Explode(b)
  {
    if a == [] {
      ExplodeCons(',', b);
      assert a + "," + b == [','] + b;
    } else {
      var c, t := a[0], a[1..];
      assert a == [c] + t;
      assert a + "," + b == [c] + (t + "," + b);
      ExplodeAtComma(t, b);
      ExplodeConsAtComma(c, t, b);
    }
  }

  lemma ExplodeConsAtComma(c: char, t: string, b: string)
    requires Explode(t + "," + b) == Explode(t) + Explode(b)
    ensures Explode([c] + (t + "," + b)) == Explode([c] + t) + Explode(b)
  {
    ExplodeCons(c, t + "," + b);
    ExplodeCons(c, t);
    PrependPiece(c, Explode(t), Explode(b));
  }

  /** What `ExplodeCons` does to the first piece commutes with appending
      further pieces. */
  lemma PrependPiece(c: char, xs: seq<string>, ys: seq<string>)
    requires |xs| >= 1
    ensures (if c == ',' then [""] + (xs + ys) else [[c] + (xs + ys)[0]] + (xs + ys)[1..])
         == (if c == ',' then [""] + xs else [[c] + xs[0]] + xs[1..]) + ys
  {
    if c == ',' {
      assert [""] + (xs + ys) == ([""] + xs) + ys;
    } else {
      PrependToFirst(c, xs, ys);
    }
  }

  /** `implode` after `explode` gives back the original string. */
  lemma {:induction false} JoinExplode(s: string)
    ensures Join(Explode(s)) == s
  {
    if s != [] {
      var c, t := s[0], s[1..];
      assert s == [c] + t && s[1..] == t;
      JoinExplode(t);
      var rest := Explode(t);
      if c == ',' {
        assert Explode(s) == [""] + rest;
        JoinAfterEmpty(rest);
      } else {
        assert Explode(s) == [[c] + rest[0]] + rest[1..];
        JoinPrepend(c, rest);
      }
    }
  }

  lemma JoinAfterEmpty(xs: seq<string>)
    requires |xs| >= 1
    ensures Join([""] + xs) == "," + Join(xs)
  {
    assert ([""] + xs)[1..] == xs;
  }

  lemma JoinPrepend(c: char, xs: seq<string>)
    requires |xs| >= 1
    ensures Join([[c] + xs[0]] + xs[1..]) == [c] + Join(xs)
  {
    if |xs| == 1 {
      assert [[c] + xs[0]] + xs[1..] == [[c] + xs[0]];
    } else {
      JoinPrependMany(c, xs[0], xs[1..]);
      assert [xs[0]] + xs[1..] == xs;
    }
  }

  lemma JoinPrependMany(c: char, x: string, ys: seq<string>)
    requires |ys| >= 1
    ensures Join([[c] + x] + ys) == [c] + Join([x] + ys)
  {
    JoinCons([c] + x, ys);
    JoinCons(x, ys);
    AppendAssoc3([c] + x, ",", Join(ys));
    AppendAssoc3([c], x, ",");
    AppendAssoc3([c], x + ",", Join(ys));
  }

  lemma JoinCons(x: string, ys: seq<string>)
    requires |ys| >= 1
    ensures Join([x] + ys) == x + "," + Join(ys)
  {
    assert ([x] + ys)[1..] == ys;
  }

  lemma AppendAssoc3(a: string, b: string, c: string)
    ensures (a + b) + c == a + (b + c)
  {
  }

  /** `explode` after `implode` gives back pieces that hold no comma. */
  lemma {:induction false} ExplodeJoin(parts: seq<string>)
    requires |parts| >= 1
    requires forall k :: 0 <= k < |parts| ==> ',' !in parts[k]
    ensures Explode(Join(parts)) == parts
  {
    if |parts| > 1 {
      ExplodeJoin(parts[1..]);
      ExplodeAtComma(parts[0], Join(parts[1..]));
      assert parts == [parts[0]] + parts[1..];
    }
  }

  /** PHP truthiness of a string: exactly "" and "0" are falsy. This is what
      `empty`, `!`, `?:` and `array_filter` without a callback test. */
  predicate IsFalsyString(s: string) {
    s == "" || s == "0"
  }

  /** A scalar value as kept in the session: a string or an integer id. */
  datatype Scalar = Str(text: string) | Num(n: nat)

  predicate Truthy(v: Scalar) {
    match v
    case Str(s) => !IsFalsyString(s)
    case Num(n) => n != 0
  }

  function DigitChar(d: nat): (c: char)
    requires d < 10
    ensures '0' <= c <= '9'
  {
    ('0' as int + d) as char
  }

  /** The number a string of decimal digits spells, most significant first. */
  function DigitsValue(s: string): nat
    requires forall i :: 0 <= i < |s| ==> '0' <= s[i] <= '9'
  {
    if s == [] then 0 else DigitsValue(s[..|s| - 1]) * 10 + (s[|s| - 1] as int - '0' as int)
  }

  /** The decimal spelling of a natural number, as PHP's string cast gives
      it: digits only that spell `n`, and a leading zero only for zero itself. */
  function Decimal(n: nat): (r: string)
    ensures r != []
    ensures forall i :: 0 <= i < |r| ==> '0' <= r[i] <= '9'
    ensures DigitsValue(r) == n
    ensures n >= 10 ==> |r| >= 2
    ensures r[0] == '0' <==> n == 0
  {
    if n < 10 then [DigitChar(n)]
    else
      var high := Decimal(n / 10);
      var r := high + [DigitChar(n % 10)];
      assert r[..|r| - 1] == high;
      r
  }

  /** `(string) $v`; the cast keeps truthiness. */
  function AsString(v: Scalar): (r: string)
    ensures Truthy(v) <==> !IsFalsyString(r)
  {
    match v
    case Str(s) => s
    case Num(n) => Decimal(n)
  }
}
