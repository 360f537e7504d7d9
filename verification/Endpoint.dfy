/** Printing an endpoint in the report and parsing one from the command line. */
module Endpoint {
  import opened Words
  import opened Wrappers

  datatype ParseError = MissingBracket | MissingPort | UnbracketedV6 | EmptyHost | BadPort

  const DIGITS := "0123456789"

  function Decimal(n: nat): string {
    if n < 10 then [DIGITS[n]] else Decimal(n / 10) + [DIGITS[n % 10]]
  }

  function DigitsValue(s: string): Option<nat> {
    if s == [] then Some(0)
    else
      var c := s[|s| - 1];
      match DigitsValue(s[..|s| - 1])
      case None => None
      case Some(high) => if '0' <= c <= '9' then Some(10 * high + (c - '0') as nat) else None
  }

  /** `str::parse::<u16>`: an optional plus sign, at least one digit, leading zeros allowed, no overflow. */
  function ParseU16(s: string): Option<u16> {
    var digits := if |s| > 1 && s[0] == '+' then s[1..] else s;
    if digits == [] then None
    else
      match DigitsValue(digits)
      case None => None
      case Some(n) => if n < 0x1_0000 then Some(n) else None
  }

  function Find(s: string, c: char): Option<nat> {
    if s == [] then None
    else if s[0] == c then Some(0)
    else
      match Find(s[1..], c)
      case None => None
      case Some(i) => Some(i + 1)
  }

  function FindLast(s: string, c: char): Option<nat> {
    if s == [] then None
    else if s[|s| - 1] == c then Some(|s| - 1)
    else FindLast(s[..|s| - 1], c)
  }

  lemma {:induction false} FindIs(s: string, c: char)
    ensures match Find(s, c) case None => c !in s case Some(i) => i < |s| && s[i] == c && c !in s[..i]
  {
    if s != [] && s[0] != c {
      FindIs(s[1..], c);
      if Find(s, c).Some? {
        var i := Find(s, c).value;
        assert s[..i] == [s[0]] + s[1..][..i - 1];
      }
    }
  }

  lemma {:induction false} FindLastIs(s: string, c: char)
    ensures match FindLast(s, c) case None => c !in s case Some(i) => i < |s| && s[i] == c && c !in s[i + 1..]
  {
    if s != [] && s[|s| - 1] != c {
      var front := s[..|s| - 1];
      FindLastIs(front, c);
      assert s == front + [s[|s| - 1]];
      if FindLast(s, c).Some? {
        var i := FindLast(s, c).value;
        assert s[i + 1..] == front[i + 1..] + [s[|s| - 1]];
      }
    }
  }

  function FormatEndpoint(addr: string, port: u16): string {
    if ':' in addr then "[" + addr + "]:" + Decimal(port) else addr + ":" + Decimal(port)
  }

  function SplitHostPort(s: string): Result<(string, string), ParseError> {
    if s != [] && s[0] == '[' then
      var rest := s[1..];
      FindIs(rest, ']');
      match Find(rest, ']')
      case None => Err(MissingBracket)
      case Some(close) =>
        var after := rest[close + 1..];
        if after == [] || after[0] != ':' then Err(MissingPort) else Ok((rest[..close], after[1..]))
    else
      FindLastIs(s, ':');
      match FindLast(s, ':')
      case None => Err(MissingPort)
      case Some(idx) => if ':' in s[..idx] then Err(UnbracketedV6) else Ok((s[..idx], s[idx + 1..]))
  }

  function ParseHostPort(s: string): Result<(string, u16), ParseError> {
    match SplitHostPort(s)
    case Err(e) => Err(e)
    case Ok((host, portText)) =>
      if host == "" then Err(EmptyHost)
      else
        match ParseU16(portText)
        case None => Err(BadPort)
        case Some(port) => Ok((host, port))
  }

  lemma {:induction false} DecimalIsDigits(n: nat)
    ensures |Decimal(n)| > 0 && forall c :: c in Decimal(n) ==> '0' <= c <= '9'
    ensures DigitsValue(Decimal(n)) == Some(n)
  {
    var last := DIGITS[n % 10];
    assert '0' <= last <= '9' && (last - '0') as nat == n % 10;
    if n < 10 {
      assert Decimal(n)[..0] == [];
    } else {
      DecimalIsDigits(n / 10);
      assert Decimal(n)[..|Decimal(n)| - 1] == Decimal(n / 10);
    }
  }

  lemma PortRoundTrip(port: u16)
    ensures ParseU16(Decimal(port)) == Some(port)
  {
    DecimalIsDigits(port);
    hide Decimal, DigitsValue;
    assert Decimal(port)[0] in Decimal(port);
  }

  lemma Avoids(s: string, c: char)
    requires c !in s
    ensures forall k :: 0 <= k < |s| ==> s[k] != c
  {
  }

  lemma FindAt(s: string, c: char, i: nat)
    requires i < |s| && s[i] == c && c !in s[..i]
    ensures Find(s, c) == Some(i)
  {
    FindIs(s, c);
    Avoids(s[..i], c);
    Avoids(s[..Find(s, c).value], c);
  }

  lemma FindLastAt(s: string, c: char, i: nat)
    requires i < |s| && s[i] == c && c !in s[i + 1..]
    ensures FindLast(s, c) == Some(i)
  {
  }

  lemma BracketedSplit(addr: string, digits: string)
    requires ']' !in digits
    ensures SplitHostPort("[" + addr + "]:" + digits) == Ok((addr, digits)) <==> ']' !in addr
    ensures ']' in addr && SplitHostPort("[" + addr + "]:" + digits).Ok? ==> SplitHostPort("[" + addr + "]:" + digits).value.0 != addr
  {
    var s := "[" + addr + "]:" + digits;
    var rest := addr + "]:" + digits;
    assert s[1..] == rest;
    if ']' !in addr {
      assert rest[..|addr|] == addr;
      FindAt(rest, ']', |addr|);
      assert rest[|addr| + 1..] == ":" + digits;
      assert (":" + digits)[1..] == digits;
    } else {
      FindIs(rest, ']');
      FindIs(addr, ']');
      FindAt(rest, ']', Find(addr, ']').value) by { assert rest[..Find(addr, ']').value] == addr[..Find(addr, ']').value]; }
    }
  }

  lemma PlainSplit(addr: string, digits: string)
    requires ':' !in addr && ':' !in digits && ']' !in digits
    ensures (addr == "" || addr[0] != '[') ==> SplitHostPort(addr + ":" + digits) == Ok((addr, digits))
    ensures addr != "" && addr[0] == '[' && SplitHostPort(addr + ":" + digits).Ok? ==> SplitHostPort(addr + ":" + digits).value.0 != addr
  {
    var s := addr + ":" + digits;
    if addr == "" || addr[0] != '[' {
      assert s[..|addr|] == addr && s[|addr| + 1..] == digits;
      FindLastAt(s, ':', |addr|);
    } else {
      var rest := s[1..];
      FindIs(rest, ']');
      if Find(rest, ']').Some? {
        var close := Find(rest, ']').value;
        Avoids(digits, ']');
        assert rest == addr[1..] + ":" + digits;
        assert forall k :: |addr| <= k < |rest| ==> rest[k] == digits[k - |addr|];
        assert close < |addr|;
      }
    }
  }

  /**
   Parsing undoes printing, for every port, exactly for the addresses that are
   either bracketed and free of `]`, or unbracketed, non-empty and not starting with `[`.
   */
  lemma EndpointRoundTrip(addr: string, port: u16)
    ensures ParseHostPort(FormatEndpoint(addr, port)) == Ok((addr, port)) <==>
            if ':' in addr then ']' !in addr else addr != "" && addr[0] != '['
  {
    DecimalIsDigits(port);
    PortRoundTrip(port);
    hide Decimal, SplitHostPort, ParseU16;
    if ':' in addr {
      BracketedSplit(addr, Decimal(port));
    } else {
      PlainSplit(addr, Decimal(port));
    }
  }

  // ----- what is accepted, and what is refused -----

  function Zeros(n: nat): (z: string)
    ensures |z| == n && forall c :: c in z ==> c == '0'
  {
    seq(n, _ => '0')
  }

  lemma DecimalStep(high: nat, c: char)
    requires '0' <= c <= '9'
    ensures Decimal(10 * high + (c - '0') as nat) == if high == 0 then [c] else Decimal(high) + [c]
  {
    var low := (c - '0') as nat;
    var n := 10 * high + low;
    assert n / 10 == high && n % 10 == low;
    assert DIGITS[low] == c;
    assert high == 0 <==> n < 10;
  }

  lemma {:induction false} DigitsForm(s: string)
    requires s != [] && DigitsValue(s).Some?
    ensures exists z: nat :: s == Zeros(z) + Decimal(DigitsValue(s).value)
  {
    hide Decimal;
    var front, c := s[..|s| - 1], s[|s| - 1];
    var high := DigitsValue(front).value;
    var n := DigitsValue(s).value;
    DecimalStep(high, c);
    assert s == front + [c];
    if front == [] {
      assert s == Zeros(0) + Decimal(n);
    } else {
      DigitsForm(front);
      hide DigitsValue;
      var z: nat :| front == Zeros(z) + Decimal(high);
      if high > 0 {
        assert s == Zeros(z) + Decimal(n);
      } else {
        DecimalOfZero();
        assert s == Zeros(z + 1) + Decimal(n);
      }
    }
  }

  lemma DecimalOfZero()
    ensures Decimal(0) == "0"
  {
  }

  lemma {:induction false} LeadingZeros(z: nat, s: string)
    ensures DigitsValue(Zeros(z) + s) == DigitsValue(s)
    decreases z + |s|
  {
    var all := Zeros(z) + s;
    if s != [] {
      LeadingZeros(z, s[..|s| - 1]);
      assert all[..|all| - 1] == Zeros(z) + s[..|s| - 1];
    } else if z > 0 {
      LeadingZeros(z - 1, s);
      assert all[..z - 1] == Zeros(z - 1) + s && all[z - 1] == '0';
    }
  }

  /** A sign or none, any number of zeros, then the decimal form of `n`. */
  ghost predicate PortForm(s: string, n: nat) {
    exists z: nat :: s == Zeros(z) + Decimal(n) || s == "+" + Zeros(z) + Decimal(n)
  }

  lemma PortHasForm(s: string, n: nat)
    requires n < 0x1_0000 && ParseU16(s) == Some(n)
    ensures PortForm(s, n)
  {
    hide Decimal, DigitsValue, Zeros;
    var digits := if |s| > 1 && s[0] == '+' then s[1..] else s;
    DigitsForm(digits);
    var z: nat :| digits == Zeros(z) + Decimal(n);
    SignedForm(s, digits, Zeros(z), Decimal(n));
  }

  lemma SignedForm(s: string, digits: string, zeros: string, decimal: string)
    requires digits == zeros + decimal && (digits == s || (|s| > 1 && s[0] == '+' && digits == s[1..]))
    ensures s == zeros + decimal || s == "+" + zeros + decimal
  {
    if digits != s {
      assert s == "+" + digits;
    }
  }

  lemma FormIsRead(s: string, n: nat)
    requires PortForm(s, n)
    ensures ParseU16(s) == if n < 0x1_0000 then Some(n) else None
  {
    hide Decimal, DigitsValue;
    var z: nat :| s == Zeros(z) + Decimal(n) || s == "+" + Zeros(z) + Decimal(n);
    var read := Zeros(z) + Decimal(n);
    DecimalIsDigits(n);
    LeadingZeros(z, Decimal(n));
    assert read[0] in read && read[0] != '+';
    assert "+" + Zeros(z) + Decimal(n) == "+" + read;
    assert s == read || (s == "+" + read && s[1..] == read);
  }

  /** Exactly these texts are read as a port: nothing above 65535, no other sign, no other character. */
  lemma PortAccepted(s: string, n: nat)
    ensures n < 0x1_0000 ==> (ParseU16(s) == Some(n) <==> PortForm(s, n))
    ensures n >= 0x1_0000 && PortForm(s, n) ==> ParseU16(s) == None
  {
    hide PortForm, ParseU16;
    if PortForm(s, n) {
      FormIsRead(s, n);
    } else if n < 0x1_0000 && ParseU16(s) == Some(n) {
      PortHasForm(s, n);
    }
  }

  /** A bracketed host without a closing bracket, or a plain one with neither colon nor opening bracket, then a colon and the port. */
  ghost predicate Joined(s: string, host: string, port: string) {
    || (s == "[" + host + "]:" + port && ']' !in host)
    || (s == host + ":" + port && ':' !in host && ':' !in port && (host == "" || host[0] != '['))
  }

  lemma SplitAccepted(s: string, host: string, port: string)
    ensures SplitHostPort(s) == Ok((host, port)) <==> Joined(s, host, port)
  {
    if s != [] && s[0] == '[' {
      BracketedForm(s, host, port);
    } else {
      PlainForm(s, host, port);
    }
  }

  lemma BracketedForm(s: string, host: string, port: string)
    requires s != [] && s[0] == '['
    ensures SplitHostPort(s) == Ok((host, port)) <==> Joined(s, host, port)
  {
    hide SplitHostPort, FindLast;
    if Joined(s, host, port) {
      if s == host + ":" + port && host != "" {
        assert s[0] == host[0];
      }
      BracketedRead(s, host, port);
    }
    if SplitHostPort(s) == Ok((host, port)) {
      BracketedParts(s, host, port);
    }
  }

  lemma BracketedRead(s: string, host: string, port: string)
    requires s == "[" + host + "]:" + port && ']' !in host
    ensures SplitHostPort(s) == Ok((host, port))
  {
    hide Find, FindLast;
    var rest := s[1..];
    assert rest == host + "]:" + port;
    assert rest[..|host|] == host;
    FindAt(rest, ']', |host|);
    assert rest[|host| + 1..] == ":" + port && (":" + port)[1..] == port;
  }

  lemma BracketedParts(s: string, host: string, port: string)
    requires s != [] && s[0] == '[' && SplitHostPort(s) == Ok((host, port))
    ensures s == "[" + host + "]:" + port && ']' !in host
  {
    hide Find, FindLast;
    var rest := s[1..];
    FindIs(rest, ']');
    var close := Find(rest, ']').value;
    var after := rest[close + 1..];
    assert after == ":" + port && rest == host + "]" + after;
  }

  lemma PlainForm(s: string, host: string, port: string)
    requires s == [] || s[0] != '['
    ensures SplitHostPort(s) == Ok((host, port)) <==> Joined(s, host, port)
  {
    FindLastIs(s, ':');
    if Joined(s, host, port) {
      assert s == host + ":" + port;
      assert s[..|host|] == host && s[|host| + 1..] == port;
      FindLastAt(s, ':', |host|);
    }
    if SplitHostPort(s) == Ok((host, port)) {
      var idx := FindLast(s, ':').value;
      assert s == host + ":" + port;
    }
  }

  /** Exactly these texts are endpoints, and each is one in one way only. */
  lemma EndpointAccepted(s: string, host: string, port: u16)
    ensures ParseHostPort(s) == Ok((host, port)) <==>
            host != "" && exists text :: Joined(s, host, text) && PortForm(text, port)
  {
    hide SplitHostPort, ParseU16, Joined, PortForm;
    if ParseHostPort(s) == Ok((host, port)) {
      var text := SplitHostPort(s).value.1;
      SplitAccepted(s, host, text);
      PortAccepted(text, port);
    }
    if host != "" && exists text :: Joined(s, host, text) && PortForm(text, port) {
      var text :| Joined(s, host, text) && PortForm(text, port);
      SplitAccepted(s, host, text);
      PortAccepted(text, port);
    }
  }

  /** Two refusals with their reasons: a second colon without brackets, and a port above 65535. */
  lemma EndpointRefused(a: string, b: string, c: string, host: string, port: nat)
    requires a == "" || a[0] != '['
    requires host != "" && host[0] != '[' && ':' !in host && port >= 0x1_0000
    ensures ParseHostPort(a + ":" + b + ":" + c) == Err(UnbracketedV6)
    ensures ParseHostPort(host + ":" + Decimal(port)) == Err(BadPort)
  {
    SecondColon(a, b, c);
    DecimalIsDigits(port);
    assert Decimal(port) == Zeros(0) + Decimal(port);
    PortAccepted(Decimal(port), port);
    hide Decimal;
    PlainSplit(host, Decimal(port));
  }

  lemma SecondColon(a: string, b: string, c: string)
    requires a == "" || a[0] != '['
    ensures SplitHostPort(a + ":" + b + ":" + c) == Err(UnbracketedV6)
  {
    var s := a + ":" + b + ":" + c;
    FindLastIs(s, ':');
    var last := |a| + 1 + |b|;
    assert s[|a|] == ':' && s[last] == ':';
    var idx := FindLast(s, ':').value;
    forall j | idx < j < |s|
      ensures s[j] != ':'
    {
      assert s[idx + 1..][j - idx - 1] == s[j];
    }
    assert s[..idx][|a|] == ':';
  }
}
