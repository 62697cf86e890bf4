/** The request's query component (esp32/ContentView.swift:126-129): two
    items, `turnOn` with `on` or `off` and `mode` with the mode in decimal,
    joined as in section 3.4 of RFC 3986 (`turnOn=on&mode=2`). The query
    string is read back by a reference parser, so every encoding here has
    an inverse. */
module Query {
  import opened Wrappers
  import opened Control

  /** A `URLQueryItem` whose value is always present. */
  datatype QueryItem = QueryItem(name: string, value: string)

  // ---------------------------------------------------------------------
  // Decimal numerals (Swift's `"\(mode)"` for an `Int`).
  // ---------------------------------------------------------------------

  predicate IsDigit(c: char) {
    '0' <= c <= '9'
  }

  predicate AllDigits(s: string) {
    forall k :: 0 <= k < |s| ==> IsDigit(s[k])
  }

  function DigitChar(d: int): (c: char)
    requires 0 <= d < 10
    ensures IsDigit(c)
  {
    "0123456789"[d]
  }

  function DigitValue(c: char): (d: int)
    requires IsDigit(c)
    ensures 0 <= d < 10
  {
    c as int - '0' as int
  }

  lemma DigitRoundTrip(d: int)
    requires 0 <= d < 10
    ensures DigitValue(DigitChar(d)) == d
  {
  }

  /** The shortest decimal numeral of `n`: digits only, no leading zero. */
  function NatToDecimal(n: nat): (s: string)
    ensures |s| >= 1 && AllDigits(s)
    ensures s[0] == '0' ==> s == "0"
    decreases n
  {
    if n < 10 then [DigitChar(n)] else NatToDecimal(n / 10) + [DigitChar(n % 10)]
  }

  /** The value of a string of digits, most significant first. */
  function ParseNat(s: string): nat
    requires AllDigits(s)
    decreases |s|
  {
    if |s| == 0 then 0 else 10 * ParseNat(s[..|s| - 1]) + DigitValue(s[|s| - 1])
  }

  /** Reading back a numeral gives the number that was printed. */
  lemma {:induction false} NatRoundTrip(n: nat)
    ensures ParseNat(NatToDecimal(n)) == n
    decreases n
  {
    var s := NatToDecimal(n);
    if n < 10 {
      DigitRoundTrip(n);
      assert s[..|s| - 1] == [];
    } else {
      NatRoundTrip(n / 10);
      DigitRoundTrip(n % 10);
      assert s[..|s| - 1] == NatToDecimal(n / 10);
    }
  }

  /** One or more digits with no leading zero (other than `0` itself). */
  predicate CanonicalDigits(s: string) {
    |s| >= 1 && AllDigits(s) && (s[0] == '0' ==> s == "0")
  }

  /** The canonical decimal numeral of an integer: canonical digits, or a
      minus sign before canonical digits other than `0` (so no `-0`). */
  predicate CanonicalDecimal(s: string) {
    CanonicalDigits(s) || (|s| >= 2 && s[0] == '-' && CanonicalDigits(s[1..]) && s[1..] != "0")
  }

  /** An `Int` in decimal: a minus sign before the magnitude when negative. */
  function IntToDecimal(n: int): (s: string)
    ensures CanonicalDecimal(s)
    ensures s[0] == '-' <==> n < 0
  {
    if n < 0 then
      var digits := NatToDecimal(-n);
      assert digits != "0" by { NatRoundTrip(-n); }
      assert ("-" + digits)[1..] == digits;
      "-" + digits
    else NatToDecimal(n)
  }

  lemma DigitCharValue(c: char)
    requires IsDigit(c)
    ensures DigitChar(DigitValue(c)) == c
  {
  }

  /** Canonical digits not starting with `0` have a positive value. */
  lemma {:induction false} LeadingDigitPositive(s: string)
    requires |s| >= 1 && AllDigits(s) && s[0] != '0'
    ensures ParseNat(s) >= 1
    decreases |s|
  {
    if |s| > 1 {
      LeadingDigitPositive(s[..|s| - 1]);
    }
  }

  /** A canonical string of digits is the printed numeral of its value. */
  lemma {:induction false} CanonicalDigitsUnique(s: string)
    requires CanonicalDigits(s)
    ensures NatToDecimal(ParseNat(s)) == s
    decreases |s|
  {
    var p := s[..|s| - 1];
    var c := s[|s| - 1];
    DigitCharValue(c);
    if |s| == 1 {
      assert p == [];
      assert s == [c];
    } else {
      assert s[0] != '0';
      assert p[0] == s[0];
      LeadingDigitPositive(p);
      CanonicalDigitsUnique(p);
      var n := ParseNat(s);
      assert n == 10 * ParseNat(p) + DigitValue(c);
      assert n >= 10 && n / 10 == ParseNat(p) && n % 10 == DigitValue(c);
      assert s == p + [c];
    }
  }

  /** A minus sign before canonical nonzero digits prints their negated
      value. */
  lemma NegativeNumeral(digits: string)
    requires CanonicalDigits(digits) && digits != "0"
    ensures IntToDecimal(0 - ParseNat(digits) as int) == "-" + digits
  {
    CanonicalDigitsUnique(digits);
    LeadingDigitPositive(digits);
  }

  /** There is one canonical numeral per integer: a canonical numeral that
      reads as `n` is the printed numeral of `n`. */
  lemma CanonicalDecimalUnique(s: string, n: int)
    requires CanonicalDecimal(s) && ParseInt(s) == Some(n)
    ensures s == IntToDecimal(n)
  {
    if CanonicalDigits(s) {
      assert s[0] != '-';
      assert n == ParseNat(s);
      CanonicalDigitsUnique(s);
    } else {
      var digits := s[1..];
      assert s == "-" + digits;
      assert n == 0 - ParseNat(digits) as int;
      NegativeNumeral(digits);
    }
  }

  /** Read an optionally signed decimal numeral. */
  function ParseInt(s: string): (r: Option<int>)
    ensures r.Some? ==> |s| >= 1
  {
    if |s| >= 2 && s[0] == '-' && AllDigits(s[1..]) then
      var m: int := 0 - ParseNat(s[1..]) as int;
      Some(m)
    else if |s| >= 1 && AllDigits(s) then Some(ParseNat(s))
    else None
  }

  /** Reading back a minus sign before a numeral negates its value. */
  lemma ParseNegative(digits: string)
    requires |digits| >= 1 && AllDigits(digits)
    ensures ParseInt("-" + digits) == Some(0 - ParseNat(digits) as int)
  {
    var s := "-" + digits;
    assert s[0] == '-' && s[1..] == digits;
  }

  /** A numeral without sign reads back as its value. */
  lemma ParseUnsigned(digits: string)
    requires |digits| >= 1 && AllDigits(digits)
    ensures ParseInt(digits) == Some(ParseNat(digits) as int)
  {
    assert IsDigit(digits[0]) && digits[0] != '-';
  }

  /** A negative `Int` prints as a minus sign before its magnitude. */
  lemma NegativePrint(n: int)
    requires n < 0
    ensures IntToDecimal(n) == "-" + NatToDecimal(-n)
  {
  }

  /** Printing then reading back a negative `Int` is the identity. */
  lemma NegativeRoundTrip(n: int)
    requires n < 0
    ensures ParseInt(IntToDecimal(n)) == Some(n)
  {
    var digits := NatToDecimal(-n);
    NegativePrint(n);
    NatRoundTrip(-n);
    ParseNegative(digits);
    assert ParseNat(digits) as int == -n;
    assert ParseInt("-" + digits) == Some(n);
  }

  /** Printing then reading back a non-negative `Int` is the identity. */
  lemma NonNegativeRoundTrip(n: int)
    requires n >= 0
    ensures ParseInt(IntToDecimal(n)) == Some(n)
  {
    var digits := NatToDecimal(n);
    assert IntToDecimal(n) == digits;
    NatRoundTrip(n);
    ParseUnsigned(digits);
  }

  /** Printing then reading back an `Int` is the identity. */
  lemma IntRoundTrip(n: int)
    ensures ParseInt(IntToDecimal(n)) == Some(n)
  {
    if n < 0 {
      NegativeRoundTrip(n);
    } else {
      NonNegativeRoundTrip(n);
    }
  }

  /** Distinct numbers print as distinct numerals. */
  lemma IntToDecimalInjective(a: int, b: int)
    ensures IntToDecimal(a) == IntToDecimal(b) <==> a == b
  {
    IntRoundTrip(a);
    IntRoundTrip(b);
  }

  // ---------------------------------------------------------------------
  // The two query items.
  // ---------------------------------------------------------------------

  /** The value of the `turnOn` item. */
  function PowerWord(on: bool): string {
    if on then "on" else "off"
  }

  /** The query items of a request for `st`: `turnOn` first, then `mode`. */
  function Encode(st: DesiredState): (q: seq<QueryItem>)
    ensures |q| == 2
    ensures q[0].name == "turnOn" && q[1].name == "mode"
    ensures q[0].value in {"on", "off"}
    ensures q[0].value == "on" <==> st.turnOn
    ensures ParseInt(q[1].value) == Some(st.mode)
    ensures CanonicalDecimal(q[1].value)
  {
    IntRoundTrip(st.mode);
    [QueryItem("turnOn", PowerWord(st.turnOn)), QueryItem("mode", IntToDecimal(st.mode))]
  }

  /** Read the desired state back from a list of query items. */
  function Decode(q: seq<QueryItem>): Option<DesiredState> {
    if |q| == 2 && q[0].name == "turnOn" && q[1].name == "mode"
      && q[0].value in {"on", "off"} && ParseInt(q[1].value).Some?
    then Some(DesiredState(q[0].value == "on", ParseInt(q[1].value).value))
    else None
  }

  /** Decoding undoes encoding. */
  lemma DecodeEncode(st: DesiredState)
    ensures Decode(Encode(st)) == Some(st)
  {
  }

  /** Distinct desired states give distinct query lists, and equal ones give
      equal lists. */
  lemma EncodeInjective(a: DesiredState, b: DesiredState)
    ensures Encode(a) == Encode(b) <==> a == b
  {
    if Encode(a) == Encode(b) {
      DecodeEncode(a);
      DecodeEncode(b);
    }
  }

  /** The characters section 2.3 of RFC 3986 calls unreserved: they never
      need percent-encoding. */
  predicate Unreserved(c: char) {
    ('a' <= c <= 'z') || ('A' <= c <= 'Z') || IsDigit(c) || c in {'-', '.', '_', '~'}
  }

  predicate AllUnreserved(s: string) {
    forall k :: 0 <= k < |s| ==> Unreserved(s[k])
  }

  /** A decimal numeral uses only unreserved characters: digits and `-`. */
  lemma DecimalUnreserved(n: int)
    ensures AllUnreserved(IntToDecimal(n))
  {
    var s := IntToDecimal(n);
    if n < 0 {
      var digits := NatToDecimal(-n);
      assert s == "-" + digits;
      forall k | 0 <= k < |s| ensures Unreserved(s[k]) {
        if k > 0 {
          assert s[k] == digits[k - 1];
        }
      }
    } else {
      assert s == NatToDecimal(n);
    }
  }

  /** Every name and value in an encoded query is made of unreserved
      characters, so building the URL escapes nothing. */
  lemma EncodedUnreserved(st: DesiredState)
    ensures forall k :: 0 <= k < |Encode(st)| ==>
      AllUnreserved(Encode(st)[k].name) && AllUnreserved(Encode(st)[k].value)
  {
    var q := Encode(st);
    assert q == [QueryItem("turnOn", PowerWord(st.turnOn)), QueryItem("mode", IntToDecimal(st.mode))];
    assert AllUnreserved(q[0].name) && AllUnreserved(q[1].name);
    assert AllUnreserved(q[0].value);
    DecimalUnreserved(st.mode);
  }

  // ---------------------------------------------------------------------
  // The query string and a reference parser for it.
  // ---------------------------------------------------------------------

  /** `name=value`. */
  function ItemString(it: QueryItem): string {
    it.name + "=" + it.value
  }

  /** The items joined by `&`, as a URL's query component. */
  function QueryString(items: seq<QueryItem>): string
    decreases |items|
  {
    if |items| == 0 then ""
    else if |items| == 1 then ItemString(items[0])
    else ItemString(items[0]) + "&" + QueryString(items[1..])
  }

  const OnPrefix: string := "turnOn=on&mode="
  const OffPrefix: string := "turnOn=off&mode="

  /** A reference parser for the query string: the fixed `turnOn` part,
      then a signed decimal mode. */
  function ParseRequestQuery(s: string): Option<DesiredState> {
    if |s| >= |OnPrefix| && s[..|OnPrefix|] == OnPrefix then
      match ParseInt(s[|OnPrefix|..])
      case Some(m) => Some(DesiredState(true, m))
      case None => None
    else if |s| >= |OffPrefix| && s[..|OffPrefix|] == OffPrefix then
      match ParseInt(s[|OffPrefix|..])
      case Some(m) => Some(DesiredState(false, m))
      case None => None
    else None
  }

  /** The query component of a request for `st`: a fixed prefix, chosen by
      the power flag, followed by the mode numeral. */
  function RequestQuery(st: DesiredState): (q: string)
    ensures q == (if st.turnOn then OnPrefix else OffPrefix) + IntToDecimal(st.mode)
  {
    var num := IntToDecimal(st.mode);
    var power := QueryItem("turnOn", PowerWord(st.turnOn));
    var mode := QueryItem("mode", num);
    assert Encode(st) == [power, mode];
    QueryStringPair(power, mode);
    assert ItemString(mode) == "mode=" + num;
    Regroup(ItemString(power), "&", "mode=", num);
    OnPrefixPieces();
    OffPrefixPieces();
    QueryString(Encode(st))
  }

  /** The query string of two items. */
  lemma QueryStringPair(a: QueryItem, b: QueryItem)
    ensures QueryString([a, b]) == ItemString(a) + "&" + ItemString(b)
  {
    assert [a, b][1..] == [b];
  }

  /** The `on` prefix is the `turnOn` item, the separator and the `mode`
      name. */
  lemma OnPrefixPieces()
    ensures OnPrefix == ItemString(QueryItem("turnOn", "on")) + "&" + "mode="
  {
  }

  /** The `off` prefix is the `turnOn` item, the separator and the `mode`
      name. */
  lemma OffPrefixPieces()
    ensures OffPrefix == ItemString(QueryItem("turnOn", "off")) + "&" + "mode="
  {
  }

  /** Regrouping a four-part concatenation. */
  lemma Regroup(a: string, b: string, c: string, d: string)
    ensures a + b + (c + d) == (a + b + c) + d
  {
  }

  /** Splitting a concatenation at the length of its first part. */
  lemma SplitAt(p: string, x: string)
    ensures (p + x)[..|p|] == p && (p + x)[|p|..] == x
  {
  }

  /** After the `on` prefix the parser reads the mode numeral. */
  lemma ParseAfterOn(x: string)
    ensures ParseRequestQuery(OnPrefix + x)
      == if ParseInt(x).Some? then Some(DesiredState(true, ParseInt(x).value)) else None
  {
    SplitAt(OnPrefix, x);
  }

  /** The `off` prefix is not mistaken for the `on` prefix, and after it the
      parser reads the mode numeral. */
  lemma ParseAfterOff(x: string)
    ensures ParseRequestQuery(OffPrefix + x)
      == if ParseInt(x).Some? then Some(DesiredState(false, ParseInt(x).value)) else None
  {
    var s := OffPrefix + x;
    assert s[8] == 'f' && OnPrefix[8] == 'n';
    assert s[..|OnPrefix|] != OnPrefix;
    SplitAt(OffPrefix, x);
  }

  /** The reference parser recovers exactly the desired state from the
      query string: the wire form is deterministic and injective. */
  lemma RequestQueryRoundTrip(st: DesiredState)
    ensures ParseRequestQuery(RequestQuery(st)) == Some(st)
  {
    IntRoundTrip(st.mode);
    if st.turnOn {
      ParseAfterOn(IntToDecimal(st.mode));
    } else {
      ParseAfterOff(IntToDecimal(st.mode));
    }
  }

  /** Two desired states share a query string only if they are equal. */
  lemma RequestQueryInjective(a: DesiredState, b: DesiredState)
    ensures RequestQuery(a) == RequestQuery(b) <==> a == b
  {
    RequestQueryRoundTrip(a);
    RequestQueryRoundTrip(b);
  }
}
