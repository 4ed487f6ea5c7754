/** The client side of loading a saved session: the response's `color_map`
    and `opacity_map` arrive as JSON objects with string keys, and each key is
    turned into a number with `parseInt(k, 10)`. */
module LoadSession {
  import opened Wrappers
  import opened Color

  /** The white space `parseInt` skips before the number: the ECMAScript
      white space and line terminator characters. */
  predicate IsJsWhitespace(c: char) {
    || c == '\t' || c == '\n' || c == '\U{000B}' || c == '\U{000C}' || c == '\r' || c == ' '
    || c == '\U{00A0}' || c == '\U{1680}' || ('\U{2000}' <= c <= '\U{200A}')
    || c == '\U{2028}' || c == '\U{2029}' || c == '\U{202F}' || c == '\U{205F}'
    || c == '\U{3000}' || c == '\U{FEFF}'
  }

  predicate IsDigit(c: char) {
    '0' <= c <= '9'
  }

  predicate AllDigits(s: string) {
    forall i :: 0 <= i < |s| ==> IsDigit(s[i])
  }

  predicate AllJsWhitespace(s: string) {
    forall i :: 0 <= i < |s| ==> IsJsWhitespace(s[i])
  }

  /** How many white space characters `s` starts with. */
  function SpaceCount(s: string): (n: nat)
    ensures n <= |s|
    ensures forall i :: 0 <= i < n ==> IsJsWhitespace(s[i])
    ensures n == |s| || !IsJsWhitespace(s[n])
  {
    if |s| > 0 && IsJsWhitespace(s[0]) then 1 + SpaceCount(s[1..]) else 0
  }

  /** What is left after the leading white space: a suffix of `s`, everything
      cut off was white space, and what is left does not start with any. */
  function TrimStart(s: string): (t: string)
    ensures |t| <= |s| && t == s[|s| - |t|..]
    ensures forall i :: 0 <= i < |s| - |t| ==> IsJsWhitespace(s[i])
    ensures |t| == 0 || !IsJsWhitespace(t[0])
  {
    s[SpaceCount(s)..]
  }

  /** How many decimal digits `s` starts with. */
  function DigitCount(s: string): (n: nat)
    ensures n <= |s|
    ensures forall i :: 0 <= i < n ==> IsDigit(s[i])
    ensures n == |s| || !IsDigit(s[n])
  {
    if |s| > 0 && IsDigit(s[0]) then 1 + DigitCount(s[1..]) else 0
  }

  /** The longest prefix of decimal digits. */
  function LeadingDigits(s: string): (d: string)
    ensures AllDigits(d) && d <= s
    ensures |d| < |s| ==> !IsDigit(s[|d|])
  {
    s[..DigitCount(s)]
  }

  function DigitValue(c: char): nat
    requires IsDigit(c)
  {
    (c - '0') as nat
  }

  /** The number a string of decimal digits denotes, most significant first. */
  function DigitsValue(ds: string): nat
    requires AllDigits(ds)
  {
    if |ds| == 0 then 0 else DigitsValue(ds[..|ds| - 1]) * 10 + DigitValue(ds[|ds| - 1])
  }

  /** A leading minus sign. */
  predicate IsNegative(t: string) {
    |t| > 0 && t[0] == '-'
  }

  /** The text after an optional leading sign. */
  function Unsigned(t: string): (u: string)
    ensures |t| > 0 && (t[0] == '-' || t[0] == '+') ==> u == t[1..]
    ensures !(|t| > 0 && (t[0] == '-' || t[0] == '+')) ==> u == t
  {
    if |t| > 0 && (t[0] == '-' || t[0] == '+') then t[1..] else t
  }

  /** `parseInt(s, 10)`: skip leading white space, read an optional sign and
      then as many decimal digits as there are; `None` is `NaN`, the result
      when no digit follows. */
  function ParseInt10(s: string): (r: Option<int>)
    ensures var t := TrimStart(s);
      var ds := LeadingDigits(Unsigned(t));
      && (r.None? <==> |ds| == 0)
      && (r.Some? && IsNegative(t) ==> r.value == 0 - DigitsValue(ds))
      && (r.Some? && !IsNegative(t) ==> r.value == DigitsValue(ds))
  {
    ParseSigned(TrimStart(s))
  }

  function ParseSigned(t: string): Option<int>
  {
    if |t| > 0 && t[0] == '-' then
      match ParseDigits(t[1..])
      case Some(v) => Some(0 - v)
      case None => None
    else if |t| > 0 && t[0] == '+' then ParseDigits(t[1..])
    else ParseDigits(t)
  }

  function ParseDigits(t: string): Option<int>
  {
    var digits := LeadingDigits(t);
    if |digits| == 0 then None else Some(DigitsValue(digits))
  }

  /** A JavaScript property key written with a number: the number's canonical
      string, or the string "NaN". */
  datatype NumberKey = IntKey(n: int) | NaNKey

  function KeyOf(s: string): (k: NumberKey)
    ensures k == NaNKey <==> ParseInt10(s).None?
    ensures k.IntKey? ==> ParseInt10(s) == Some(k.n)
  {
    match ParseInt10(s)
    case Some(n) => IntKey(n)
    case None => NaNKey
  }

  /** Pair `i` is the last one with its key. */
  ghost predicate LastWithKey<K, V>(pairs: seq<(K, V)>, i: int)
    requires 0 <= i < |pairs|
  {
    forall j :: i < j < |pairs| ==> pairs[j].0 != pairs[i].0
  }

  /** Assigning `out[k] = v` for each pair in turn, starting from `{}`. */
  function Assign<K, V>(pairs: seq<(K, V)>): (m: map<K, V>)
    ensures m.Keys == set i | 0 <= i < |pairs| :: pairs[i].0
    ensures forall i :: 0 <= i < |pairs| && LastWithKey(pairs, i) ==> m[pairs[i].0] == pairs[i].1
  {
    if |pairs| == 0 then map[]
    else
      var init := pairs[..|pairs| - 1];
      var last := pairs[|pairs| - 1];
      assert forall i :: 0 <= i < |init| ==> init[i] == pairs[i];
      Assign(init)[last.0 := last.1]
  }

  /** Each entry with its key parsed. */
  function ParseKeys<V>(entries: seq<(string, V)>): (pairs: seq<(NumberKey, V)>)
    ensures |pairs| == |entries|
    ensures forall i :: 0 <= i < |entries| ==> pairs[i] == (KeyOf(entries[i].0), entries[i].1)
  {
    seq(|entries|, i requires 0 <= i < |entries| => (KeyOf(entries[i].0), entries[i].1))
  }

  /** The loop `for (const [k, v] of Object.entries(obj)) out[parseInt(k, 10)] = v`
      over the entries in `Object.entries` order: every parsed key is present,
      and holds the value of the last entry that parses to it. */
  function Normalize<V>(entries: seq<(string, V)>): (m: map<NumberKey, V>)
    ensures forall i :: 0 <= i < |entries| ==> KeyOf(entries[i].0) in m
    ensures forall k :: k in m ==> exists i :: 0 <= i < |entries| && KeyOf(entries[i].0) == k
    ensures forall i :: 0 <= i < |entries| && LastWithKey(ParseKeys(entries), i) ==>
      m[KeyOf(entries[i].0)] == entries[i].1
  {
    var pairs := ParseKeys(entries);
    var m := Assign(pairs);
    assert forall i :: 0 <= i < |entries| ==> pairs[i].0 == KeyOf(entries[i].0);
    m
  }

  /** The parts of the response body the loader reads; `None` is a field that
      is missing or `null`, on which `Object.entries` throws. */
  datatype SessionBody = SessionBody(
    colorMap: Option<seq<(string, Rgb)>>,
    opacityMap: Option<seq<(string, real)>>)

  datatype Loaded = Loaded(colorMap: map<NumberKey, Rgb>, opacityMap: map<NumberKey, real>)

  /** `loadSession`: `response` is `None` when the request fails. Any failure
      gives `null`; otherwise both maps are converted in full. */
  function LoadSession(response: Option<SessionBody>): (r: Option<Loaded>)
    ensures r.Some? <==> response.Some? && response.value.colorMap.Some? && response.value.opacityMap.Some?
    ensures r.Some? ==> r.value.colorMap == Normalize(response.value.colorMap.value)
    ensures r.Some? ==> r.value.opacityMap == Normalize(response.value.opacityMap.value)
  {
    match response
    case None => None
    case Some(body) =>
      if body.colorMap.None? || body.opacityMap.None? then None
      else Some(Loaded(Normalize(body.colorMap.value), Normalize(body.opacityMap.value)))
  }

  /** How a JSON serialiser writes an integer key: its decimal digits, with a
      minus sign when negative. */
  function NatDigits(n: nat): (s: string)
    ensures |s| > 0 && AllDigits(s)
  {
    if n < 10 then [('0' as int + n) as char]
    else NatDigits(n / 10) + [('0' as int + n % 10) as char]
  }

  function Decimal(n: int): string
  {
    if n < 0 then "-" + NatDigits(-n) else NatDigits(n)
  }

  lemma {:induction false} DigitsValueOfNatDigits(n: nat)
    ensures DigitsValue(NatDigits(n)) == n
    decreases n
  {
    if n >= 10 {
      var s := NatDigits(n);
      assert s[..|s| - 1] == NatDigits(n / 10);
      DigitsValueOfNatDigits(n / 10);
    }
  }

  /** White space in front of a text that does not start with white space is
      exactly what `TrimStart` removes. */
  lemma {:induction false} SpaceCountStops(w: string, x: string)
    requires AllJsWhitespace(w)
    requires |x| == 0 || !IsJsWhitespace(x[0])
    ensures SpaceCount(w + x) == |w|
    decreases |w|
  {
    if |w| == 0 {
      assert w + x == x;
    } else {
      assert (w + x)[0] == w[0];
      assert (w + x)[1..] == w[1..] + x;
      SpaceCountStops(w[1..], x);
    }
  }

  lemma TrimStartSkips(w: string, x: string)
    requires AllJsWhitespace(w)
    requires |x| == 0 || !IsJsWhitespace(x[0])
    ensures TrimStart(w + x) == x
  {
    SpaceCountStops(w, x);
    assert (w + x)[|w|..] == x;
  }

  /** The digit run stops at the first character that is not a digit. */
  lemma {:induction false} DigitCountStops(ds: string, j: string)
    requires AllDigits(ds)
    requires |j| == 0 || !IsDigit(j[0])
    ensures DigitCount(ds + j) == |ds|
    decreases |ds|
  {
    if |ds| == 0 {
      assert ds + j == j;
    } else {
      assert (ds + j)[0] == ds[0];
      assert (ds + j)[1..] == ds[1..] + j;
      DigitCountStops(ds[1..], j);
    }
  }

  lemma LeadingDigitsStops(ds: string, j: string)
    requires AllDigits(ds)
    requires |j| == 0 || !IsDigit(j[0])
    ensures LeadingDigits(ds + j) == ds
  {
    DigitCountStops(ds, j);
    assert (ds + j)[..|ds|] == ds;
  }

  /** A non-empty run of digits followed by a non-digit reads as the number
      the digits denote. */
  lemma ParseDigitsStops(ds: string, j: string)
    requires |ds| > 0 && AllDigits(ds)
    requires |j| == 0 || !IsDigit(j[0])
    ensures ParseDigits(ds + j) == Some(DigitsValue(ds))
  {
    LeadingDigitsStops(ds, j);
  }

  /** Digits without a sign read as their value. */
  lemma ParseSignedPlain(ds: string, j: string)
    requires |ds| > 0 && AllDigits(ds)
    requires |j| == 0 || !IsDigit(j[0])
    ensures ParseSigned(ds + j) == Some(DigitsValue(ds))
  {
    assert (ds + j)[0] == ds[0];
    ParseDigitsStops(ds, j);
  }

  /** A minus sign before a number negates it. */
  lemma ParseSignedMinus(t: string)
    requires |t| > 0 && t[0] == '-' && ParseDigits(t[1..]).Some?
    ensures ParseSigned(t) == Some(0 - ParseDigits(t[1..]).value)
  {
  }

  /** A negative number's decimal form followed by a non-digit. */
  lemma ParseSignedNegativeDecimal(m: nat, j: string)
    requires |j| == 0 || !IsDigit(j[0])
    ensures ParseSigned("-" + NatDigits(m) + j) == Some(0 - m)
  {
    var t := "-" + NatDigits(m) + j;
    assert t[0] == '-' && t[1..] == NatDigits(m) + j;
    assert ParseDigits(t[1..]) == Some(m) by {
      ParseDigitsStops(NatDigits(m), j);
      DigitsValueOfNatDigits(m);
    }
    ParseSignedMinus(t);
  }

  /** `Decimal(n)` followed by a non-digit, with the sign handled. */
  lemma ParseSignedDecimal(n: int, j: string)
    requires |j| == 0 || !IsDigit(j[0])
    ensures ParseSigned(Decimal(n) + j) == Some(n)
  {
    if n < 0 {
      ParseSignedNegativeDecimal(-n, j);
    } else {
      DigitsValueOfNatDigits(n);
      ParseSignedPlain(NatDigits(n), j);
    }
  }

  /** A decimal number starts with a minus sign or a digit, never with
      white space. */
  lemma DecimalStart(n: int)
    ensures |Decimal(n)| > 0 && (Decimal(n)[0] == '-' || IsDigit(Decimal(n)[0]))
    ensures !IsJsWhitespace(Decimal(n)[0])
  {
  }

  /** `Decimal(n)` followed by anything that does not continue the number:
      leading white space is skipped and what follows the digits is
      ignored. */
  lemma ParseInt10SkipsSpaceAndJunk(w: string, n: int, j: string)
    requires AllJsWhitespace(w)
    requires |j| == 0 || !IsDigit(j[0])
    ensures ParseInt10(w + Decimal(n) + j) == Some(n)
  {
    var x := Decimal(n) + j;
    assert x[0] == Decimal(n)[0] by {
      DecimalStart(n);
    }
    assert w + Decimal(n) + j == w + x;
    DecimalStart(n);
    TrimStartSkips(w, x);
    ParseSignedDecimal(n, j);
  }

  /** Text that does not start with white space is left as it is. */
  lemma TrimStartKeeps(x: string)
    requires |x| == 0 || !IsJsWhitespace(x[0])
    ensures TrimStart(x) == x
  {
  }

  lemma ParseSignedOfDecimal(n: int)
    ensures ParseSigned(Decimal(n)) == Some(n)
  {
    var d := Decimal(n);
    assert d + [] == d;
    ParseSignedDecimal(n, []);
  }

  /** `parseInt` reads back every integer written in decimal. */
  lemma ParseInt10OfDecimal(n: int)
    ensures ParseInt10(Decimal(n)) == Some(n)
  {
    DecimalStart(n);
    TrimStartKeeps(Decimal(n));
    ParseSignedOfDecimal(n);
  }

  /** A hexadecimal prefix is not understood in radix 10: whatever follows
      "0x", only the leading 0 is read. */
  lemma ParseInt10NoHexPrefix(w: string, rest: string)
    requires AllJsWhitespace(w)
    ensures ParseInt10(w + "0x" + rest) == Some(0)
  {
    var x := "x" + rest;
    assert Decimal(0) == "0";
    assert w + "0x" + rest == w + Decimal(0) + x;
    ParseInt10SkipsSpaceAndJunk(w, 0, x);
  }

  /** Negative zero is the key 0, wherever it stands. */
  lemma ParseInt10NegativeZero(w: string, j: string)
    requires AllJsWhitespace(w)
    requires |j| == 0 || !IsDigit(j[0])
    ensures ParseInt10(w + "-0" + j) == Some(0)
  {
    var x := "-" + NatDigits(0) + j;
    assert w + "-0" + j == w + x;
    TrimStartSkips(w, x);
    ParseSignedNegativeDecimal(0, j);
  }

  /** When no digit follows the white space and the optional sign, the key
      parses to `NaN`. */
  lemma ParseInt10NoDigits(s: string)
    requires var u := Unsigned(TrimStart(s)); |u| == 0 || !IsDigit(u[0])
    ensures ParseInt10(s) == None
  {
  }

  /** A key made only of digits is the number they denote, leading zeros
      ignored. */
  lemma KeyOfDigits(ds: string)
    requires |ds| > 0 && AllDigits(ds)
    ensures KeyOf(ds) == IntKey(DigitsValue(ds))
  {
    assert IsDigit(ds[0]);
    TrimStartSkips("", ds);
    assert "" + ds == ds && ds + "" == ds;
    ParseSignedPlain(ds, "");
  }

  /** A leading zero does not change the value of a digit string. */
  lemma {:induction false} DigitsValueLeadingZero(ds: string)
    requires AllDigits(ds)
    ensures AllDigits(['0'] + ds) && DigitsValue(['0'] + ds) == DigitsValue(ds)
    decreases |ds|
  {
    var z := ['0'] + ds;
    assert AllDigits(z) by {
      assert forall i :: 1 <= i < |z| ==> z[i] == ds[i - 1];
    }
    if |ds| > 0 {
      assert z[..|z| - 1] == ['0'] + ds[..|ds| - 1];
      DigitsValueLeadingZero(ds[..|ds| - 1]);
    }
  }

  /** A number written with and without a leading zero gives the same key. */
  lemma LeadingZeroCollides(n: nat)
    ensures KeyOf(NatDigits(n)) == IntKey(n) && KeyOf(['0'] + NatDigits(n)) == IntKey(n)
  {
    DigitsValueOfNatDigits(n);
    KeyOfDigits(NatDigits(n));
    DigitsValueLeadingZero(NatDigits(n));
    KeyOfDigits(['0'] + NatDigits(n));
  }

  /** Assigning the same key twice keeps the second value. */
  lemma AssignTwice<K, V>(k: K, a: V, b: V)
    ensures Assign([(k, a), (k, b)]) == map[k := b]
  {
    var pairs := [(k, a), (k, b)];
    assert pairs[..1] == [(k, a)];
    assert [(k, a)][..0] == [];
  }

  /** Two entries are assigned in order under their parsed keys. */
  lemma NormalizePair<V>(k1: string, v1: V, k2: string, v2: V)
    ensures Normalize([(k1, v1), (k2, v2)]) == Assign([(KeyOf(k1), v1), (KeyOf(k2), v2)])
  {
    var entries := [(k1, v1), (k2, v2)];
    var pairs := ParseKeys(entries);
    assert pairs[0] == (KeyOf(k1), v1) && pairs[1] == (KeyOf(k2), v2);
    assert pairs == [(KeyOf(k1), v1), (KeyOf(k2), v2)];
  }

  /** Two keys that parse to the same number, such as "7" and "07", collide,
      and the later entry wins. */
  lemma CollidingKeysLastWins<V>(n: nat, a: V, b: V)
    ensures Normalize([(NatDigits(n), a), (['0'] + NatDigits(n), b)]) == map[IntKey(n) := b]
  {
    var first, second := NatDigits(n), ['0'] + NatDigits(n);
    NormalizePair(first, a, second, b);
    LeadingZeroCollides(n);
    AssignTwice(IntKey(n), a, b);
  }

  /** A map with integer keys, written as JSON with decimal string keys in any
      order. */
  function Encode<V>(m: map<int, V>, order: seq<int>): (entries: seq<(string, V)>)
    requires forall i :: 0 <= i < |order| ==> order[i] in m
    ensures |entries| == |order|
  {
    seq(|order|, i requires 0 <= i < |order| => (Decimal(order[i]), m[order[i]]))
  }

  function Lift<V>(m: map<int, V>): (r: map<NumberKey, V>)
    ensures forall n :: n in m <==> IntKey(n) in r
    ensures NaNKey !in r
    ensures forall n :: n in m ==> r[IntKey(n)] == m[n]
  {
    map n | n in m :: IntKey(n) := m[n]
  }

  lemma ParseKeysOfEncode<V>(m: map<int, V>, order: seq<int>)
    requires forall i :: 0 <= i < |order| ==> order[i] in m
    ensures ParseKeys(Encode(m, order))
         == seq(|order|, i requires 0 <= i < |order| => (IntKey(order[i]), m[order[i]]))
  {
    var entries := Encode(m, order);
    forall i | 0 <= i < |order|
      ensures KeyOf(entries[i].0) == IntKey(order[i])
    {
      ParseInt10OfDecimal(order[i]);
    }
  }

  /** Assigning pairs with distinct keys keeps every pair. */
  lemma AssignDistinct<K, V>(pairs: seq<(K, V)>, m: map<K, V>)
    requires forall i, j :: 0 <= i < j < |pairs| ==> pairs[i].0 != pairs[j].0
    requires forall i :: 0 <= i < |pairs| ==> pairs[i].0 in m && m[pairs[i].0] == pairs[i].1
    requires forall k :: k in m ==> exists i :: 0 <= i < |pairs| && pairs[i].0 == k
    ensures Assign(pairs) == m
  {
    var r := Assign(pairs);
    forall i | 0 <= i < |pairs|
      ensures LastWithKey(pairs, i)
    {
    }
    assert r.Keys == m.Keys;
  }

  /** Saving a map and loading it back gives the same keys and values. */
  lemma NormalizeEncodeRoundTrip<V>(m: map<int, V>, order: seq<int>)
    requires forall i :: 0 <= i < |order| ==> order[i] in m
    requires forall n :: n in m ==> n in order
    requires forall i, j :: 0 <= i < j < |order| ==> order[i] != order[j]
    ensures Normalize(Encode(m, order)) == Lift(m)
  {
    var pairs := seq(|order|, i requires 0 <= i < |order| => (IntKey(order[i]), m[order[i]]));
    ParseKeysOfEncode(m, order);
    var lifted := Lift(m);
    forall k | k in lifted
      ensures exists i :: 0 <= i < |pairs| && pairs[i].0 == k
    {
      var i :| 0 <= i < |order| && order[i] == k.n;
      assert pairs[i].0 == k;
    }
    AssignDistinct(pairs, lifted);
  }
}
