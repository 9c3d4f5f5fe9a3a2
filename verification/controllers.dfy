/** DataStore_Controllers: the normalisation of a controller's address
    (an IPv4 address with an optional port, a COM serial port or a tty
    device) and the field checks of adding and updating a controller. */
module Controllers {
  import opened Wrappers
  import opened Text

  // ---------------------------------------------------------------------
  // The IPv4 pattern: ^\d{1,3}\.\d{1,3}\.\d{1,3}\.\d{1,3}(:\d{1,5})?$
  // ---------------------------------------------------------------------

  predicate IsOctet(t: string) {
    1 <= |t| <= 3 && AllDigits(t)
  }

  predicate IsPort(t: string) {
    1 <= |t| <= 5 && AllDigits(t)
  }

  /** ip is four octets with its dots at i, j and k. */
  predicate QuadAt(ip: string, i: int, j: int, k: int) {
    0 < i < j < k < |ip| && ip[i] == '.' && ip[j] == '.' && ip[k] == '.'
    && IsOctet(ip[..i]) && IsOctet(ip[i + 1..j]) && IsOctet(ip[j + 1..k]) && IsOctet(ip[k + 1..])
  }

  /** The address group of the pattern: four dot-separated octets. */
  predicate IsDottedQuad(ip: string) {
    exists i, j, k {:trigger QuadAt(ip, i, j, k)} | 0 < i < j < k < |ip| :: QuadAt(ip, i, j, k)
  }

  /** The whole pattern matches s, with address group ip and port group
      port (None when the optional part is absent). */
  predicate IPPatternMatches(s: string, ip: string, port: Option<string>) {
    IsDottedQuad(ip)
    && match port
       case None => s == ip
       case Some(p) => IsPort(p) && s == ip + ":" + p
  }

  /** s[a..b] is all digits, stated on s itself. */
  predicate DigitsBetween(s: string, a: int, b: int)
    requires 0 <= a <= b <= |s|
  {
    forall m | a <= m < b :: IsDigit(s[m])
  }

  lemma DigitsBetweenSlice(s: string, a: int, b: int)
    requires 0 <= a <= b <= |s|
    ensures DigitsBetween(s, a, b) <==> AllDigits(s[a..b])
  {
    if DigitsBetween(s, a, b) {
      forall m | 0 <= m < b - a ensures IsDigit(s[a..b][m]) {
        assert s[a..b][m] == s[a + m];
      }
    }
    if AllDigits(s[a..b]) {
      forall m | a <= m < b ensures IsDigit(s[m]) {
        assert s[m] == s[a..b][m - a];
      }
    }
  }

  /** s[a..b] is an octet, stated on s itself. */
  predicate OctetBetween(s: string, a: int, b: int)
    requires 0 <= a <= b <= |s|
  {
    a < b <= a + 3 && DigitsBetween(s, a, b)
  }

  lemma OctetBetweenSlice(s: string, a: int, b: int)
    requires 0 <= a <= b <= |s|
    ensures OctetBetween(s, a, b) <==> IsOctet(s[a..b])
  {
    DigitsBetweenSlice(s, a, b);
  }

  /** The length of the run of digits starting at i. */
  function DigitRun(s: string, i: nat): (k: nat)
    requires i <= |s|
    ensures i + k <= |s|
    decreases |s| - i
  {
    if i < |s| && IsDigit(s[i]) then 1 + DigitRun(s, i + 1) else 0
  }

  /** The digits from a to b are an octet followed by a dot. */
  predicate DottedOctet(s: string, a: int, b: int) {
    0 <= a < b <= a + 3 && b < |s| && s[b] == '.'
  }

  /** The ends of the four octets of the address group at the start of
      s. Each \d{1,3} is followed by a character no digit can be, so the
      pattern takes every run of digits whole. */
  function QuadEnds(s: string): Option<(nat, nat, nat, nat)> {
    var e1 := DigitRun(s, 0);
    if !DottedOctet(s, 0, e1) then None
    else
      var e2 := e1 + 1 + DigitRun(s, e1 + 1);
      if !DottedOctet(s, e1 + 1, e2) then None
      else
        var e3 := e2 + 1 + DigitRun(s, e2 + 1);
        if !DottedOctet(s, e2 + 1, e3) then None
        else
          var e4 := e3 + 1 + DigitRun(s, e3 + 1);
          if e3 + 1 < e4 <= e3 + 4 then Some((e1, e2, e3, e4)) else None
  }

  /** The ends QuadEnds finds are dots and the octets lie between them. */
  lemma QuadEndsSpec(s: string)
    requires QuadEnds(s).Some?
    ensures var (e1, e2, e3, e4) := QuadEnds(s).value;
      0 < e1 < e2 < e3 < e4 <= |s| && s[e1] == '.' && s[e2] == '.' && s[e3] == '.'
      && OctetBetween(s, 0, e1) && OctetBetween(s, e1 + 1, e2) && OctetBetween(s, e2 + 1, e3) && OctetBetween(s, e3 + 1, e4)
  {
    var (e1, e2, e3, e4) := QuadEnds(s).value;
    DigitRunSpec(s, 0);
    DigitRunSpec(s, e1 + 1);
    DigitRunSpec(s, e2 + 1);
    DigitRunSpec(s, e3 + 1);
  }

  /** IPRegex.Match(s): the ip and port groups when the pattern matches. */
  function MatchIP(s: string): (r: Option<(string, Option<string>)>) {
    match QuadEnds(s)
    case None => None
    case Some(e) => AfterQuad(s, e.3)
  }

  /** The end of the pattern once the address group ends at e: the end of
      s, or a colon and a port reaching it. */
  function AfterQuad(s: string, e: nat): Option<(string, Option<string>)>
    requires e <= |s|
  {
    if e == |s| then Some((s, None))
    else if s[e] == ':' && IsPort(s[e + 1..]) then Some((s[..e], Some(s[e + 1..])))
    else None
  }

  /** DigitRun counts digits and stops at the end or at a non-digit. */
  lemma {:induction false} DigitRunSpec(s: string, i: nat)
    requires i <= |s|
    ensures DigitsBetween(s, i, i + DigitRun(s, i))
    ensures i + DigitRun(s, i) == |s| || !IsDigit(s[i + DigitRun(s, i)])
    decreases |s| - i
  {
    if i < |s| && IsDigit(s[i]) {
      DigitRunSpec(s, i + 1);
    }
  }

  /** A run of digits from i to e that stops at e is what DigitRun
      counts. */
  lemma {:induction false} RunIs(s: string, i: nat, e: nat)
    requires i <= e <= |s| && DigitsBetween(s, i, e)
    requires e == |s| || !IsDigit(s[e])
    ensures DigitRun(s, i) == e - i
    decreases e - i
  {
    if i < e {
      RunIs(s, i + 1, e);
    }
  }


  /** The four octets MatchIP found make s[..e4] a dotted quad. */
  lemma FoundQuad(s: string, e1: nat, e2: nat, e3: nat, e4: nat)
    requires 0 < e1 < e2 < e3 < e4 <= |s| && s[e1] == '.' && s[e2] == '.' && s[e3] == '.'
    requires OctetBetween(s, 0, e1) && OctetBetween(s, e1 + 1, e2) && OctetBetween(s, e2 + 1, e3) && OctetBetween(s, e3 + 1, e4)
    ensures QuadAt(s[..e4], e1, e2, e3) && IsDottedQuad(s[..e4])
  {
    OctetBetweenSlice(s, 0, e1);
    OctetBetweenSlice(s, e1 + 1, e2);
    OctetBetweenSlice(s, e2 + 1, e3);
    OctetBetweenSlice(s, e3 + 1, e4);
    var ip := s[..e4];
    assert ip[..e1] == s[0..e1];
    assert ip[e1 + 1..e2] == s[e1 + 1..e2];
    assert ip[e2 + 1..e3] == s[e2 + 1..e3];
    assert ip[e3 + 1..] == s[e3 + 1..e4];
    assert QuadAt(ip, e1, e2, e3);
  }

  /** Every match MatchIP reports is a match of the pattern. */
  lemma MatchIPSound(s: string)
    requires MatchIP(s).Some?
    ensures IPPatternMatches(s, MatchIP(s).value.0, MatchIP(s).value.1)
  {
    var (e1, e2, e3, e4) := QuadEnds(s).value;
    QuadEndsSpec(s);
    FoundQuad(s, e1, e2, e3, e4);
    var ip := s[..e4];
    assert MatchIP(s) == AfterQuad(s, e4);
    if e4 == |s| {
      assert ip == s;
      assert MatchIP(s) == Some((ip, None));
    } else {
      var p := s[e4 + 1..];
      assert MatchIP(s) == Some((ip, Some(p)));
      assert s == ip + ":" + p;
    }
  }

  /** QuadEnds from the four octet ends it finds. */
  lemma QuadEndsOf(s: string, e1: nat, e2: nat, e3: nat, e4: nat)
    requires DottedOctet(s, 0, e1) && DottedOctet(s, e1 + 1, e2) && DottedOctet(s, e2 + 1, e3)
    requires e3 + 1 < e4 <= e3 + 4 && e4 <= |s|
    requires DigitRun(s, 0) == e1 && DigitRun(s, e1 + 1) == e2 - e1 - 1
    requires DigitRun(s, e2 + 1) == e3 - e2 - 1 && DigitRun(s, e3 + 1) == e4 - e3 - 1
    ensures QuadEnds(s) == Some((e1, e2, e3, e4))
  {
  }

  /** An octet of a prefix ip of s that no digit of s follows is one whole
      run of digits. */
  lemma OctetInPrefix(s: string, ip: string, a: nat, b: nat)
    requires ip <= s && a < b <= |ip| && IsOctet(ip[a..b])
    requires b == |s| || !IsDigit(s[b])
    ensures DigitRun(s, a) == b - a
  {
    assert s[a..b] == ip[a..b];
    OctetBetweenSlice(s, a, b);
    RunIs(s, a, b);
  }

  /** The prefix facts completeness needs: the dotted quad ip starts s
      and is followed by the end of s or by a colon. */
  lemma QuadPrefixEnds(s: string, ip: string, i: int, j: int, k: int)
    requires QuadAt(ip, i, j, k) && ip <= s
    requires |ip| == |s| || s[|ip|] == ':'
    ensures QuadEnds(s) == Some((i, j, k, |ip|))
  {
    assert s[..|ip|] == ip;
    OctetInPrefix(s, ip, 0, i);
    OctetInPrefix(s, ip, i + 1, j);
    OctetInPrefix(s, ip, j + 1, k);
    OctetInPrefix(s, ip, k + 1, |ip|);
    QuadEndsOf(s, i, j, k, |ip|);
  }

  /** Every match of the pattern is the one MatchIP reports. */
  lemma MatchIPComplete(s: string, ip: string, port: Option<string>)
    requires IPPatternMatches(s, ip, port)
    ensures MatchIP(s) == Some((ip, port))
  {
    var i, j, k :| 0 < i < j < k < |ip| && QuadAt(ip, i, j, k);
    if port.Some? {
      assert s[..|ip|] == ip && s[|ip|] == ':' && s[|ip| + 1..] == port.value;
    }
    QuadPrefixEnds(s, ip, i, j, k);
  }

  /** MatchIP is exactly the pattern: it reports (ip, port) if and only if
      the pattern matches s with those groups. */
  lemma MatchIPExact(s: string, ip: string, port: Option<string>)
    ensures MatchIP(s) == Some((ip, port)) <==> IPPatternMatches(s, ip, port)
  {
    if MatchIP(s) == Some((ip, port)) {
      MatchIPSound(s);
    }
    if IPPatternMatches(s, ip, port) {
      MatchIPComplete(s, ip, port);
    }
  }

  // ---------------------------------------------------------------------
  // The serial-port and tty patterns: COM\d+ and tty\w+, case ignored,
  // anywhere in the input; the leftmost match wins.
  // ---------------------------------------------------------------------

  /** tag (in upper case) starts at i, case ignored, and is followed by a
      character of the class follow. */
  predicate TagAt(s: string, i: int, tag: string, follow: char -> bool) {
    0 <= i && i + |tag| < |s|
    && (forall m | 0 <= m < |tag| :: ToUpperAscii(s[i + m]) == tag[m])
    && follow(s[i + |tag|])
  }

  /** The leftmost position at or after i where the tag matches. */
  function FirstTag(s: string, tag: string, follow: char -> bool, i: nat): (r: Option<nat>)
    ensures r.Some? ==> r.value + |tag| < |s|
    decreases |s| - i
  {
    if i + |tag| >= |s| then None
    else if TagAt(s, i, tag, follow) then Some(i)
    else FirstTag(s, tag, follow, i + 1)
  }

  /** FirstTag finds the leftmost match, and none when there is none. */
  lemma {:induction false} FirstTagSpec(s: string, tag: string, follow: char -> bool, i: nat)
    ensures var r := FirstTag(s, tag, follow, i);
      (r.Some? ==> (i <= r.value && TagAt(s, r.value, tag, follow)
                    && forall j | i <= j < r.value :: !TagAt(s, j, tag, follow)))
      && (r.None? ==> forall j | i <= j :: !TagAt(s, j, tag, follow))
    decreases |s| - i
  {
    if i + |tag| < |s| && !TagAt(s, i, tag, follow) {
      FirstTagSpec(s, tag, follow, i + 1);
    }
  }

  const Com: string := "COM"
  const Tty: string := "TTY"

  /** SerialPortRegex.Match(s): the port group, the whole run of digits
      after the leftmost COM that a digit follows. */
  function MatchSerialPort(s: string): Option<string> {
    match FirstTag(s, Com, IsDigit, 0)
    case None => None
    case Some(i) => Some(s[i + 3..i + 3 + DigitRun(s, i + 3)])
  }

  /** TtyRegex.Match(s).Success */
  predicate MatchesTty(s: string) {
    FirstTag(s, Tty, IsWordChar, 0).Some?
  }

  // ---------------------------------------------------------------------
  // ProcessIPAddress
  // ---------------------------------------------------------------------

  /** IPAddress.TryParse followed by ToString: the address text it
      accepts, in its canonical form. The parser itself is not modelled. */
  type AddressParser = string -> Option<string>

  /** The normalisation of an address already trimmed and not blank. */
  function Classify(t: string, parse: AddressParser): Option<string> {
    match MatchIP(t)
    case Some((addr, port)) =>
      (match parse(addr)
       case None => None
       case Some(text) => Some(text + (if port.Some? then ":" + port.value else "")))
    case None =>
      match MatchSerialPort(t)
      case Some(digits) => Some(Com + digits)
      case None => if MatchesTty(t) then Some(t) else None
  }

  /** ProcessIPAddress: null for a null or blank input; otherwise the
      trimmed input, classified. */
  function ProcessIPAddress(ip: Option<string>, parse: AddressParser): (r: Option<string>)
    ensures IsNullOrWhiteSpace(ip) ==> r == None
  {
    if IsNullOrWhiteSpace(ip) then None else Classify(Trim(ip.value), parse)
  }

  /** The trimmed input of a non-blank address is not blank either. */
  lemma TrimmedNotBlank(s: string)
    requires !IsBlank(s)
    ensures !IsBlank(Trim(s)) && Trim(Trim(s)) == Trim(s)
  {
    TrimEmptyIffBlank(s);
    TrimIdempotent(s);
    var t := Trim(s);
    assert !IsWhiteSpace(t[0]);
  }

  /** Only the trimmed input matters: surrounding white space never
      changes the result. */
  lemma ProcessIPAddressTrims(s: string, parse: AddressParser)
    ensures ProcessIPAddress(Some(s), parse) == ProcessIPAddress(Some(Trim(s)), parse)
  {
    if IsBlank(s) {
      TrimEmptyIffBlank(s);
    } else {
      TrimmedNotBlank(s);
    }
  }

  /** The text after the address on an IPv4 match: ":" and the port
      digits as written, or nothing. */
  function PortSuffix(port: Option<string>): string {
    if port.Some? then ":" + port.value else ""
  }

  /** A dotted quad, with or without a port, gives the parser's text for
      the address followed by the port verbatim (its range is never
      checked); a quad the parser rejects gives null, whatever COM or tty
      text the input also holds. */
  lemma ProcessIPAddressIPv4(s: string, parse: AddressParser, addr: string, port: Option<string>)
    requires IPPatternMatches(Trim(s), addr, port)
    ensures parse(addr).Some? ==> ProcessIPAddress(Some(s), parse) == Some(parse(addr).value + PortSuffix(port))
    ensures parse(addr).None? ==> ProcessIPAddress(Some(s), parse) == None
  {
    MatchIPComplete(Trim(s), addr, port);
    TrimEmptyIffBlank(s);
  }

  /** d is the whole run of digits after a COM at i. */
  predicate DigitsAfterTag(s: string, i: int, d: string) {
    0 <= i && i + 3 + |d| <= |s| && d == s[i + 3..i + 3 + |d|] && d != [] && AllDigits(d)
    && (i + 3 + |d| == |s| || !IsDigit(s[i + 3 + |d|]))
  }

  /** The leftmost COM followed by digits gives "COM" and all of those
      digits, when the input is no IPv4 address. */
  lemma ProcessIPAddressSerial(s: string, parse: AddressParser, i: int, d: string)
    requires forall addr, port :: !IPPatternMatches(Trim(s), addr, port)
    requires TagAt(Trim(s), i, Com, IsDigit) && forall j | 0 <= j < i :: !TagAt(Trim(s), j, Com, IsDigit)
    requires DigitsAfterTag(Trim(s), i, d)
    ensures ProcessIPAddress(Some(s), parse) == Some(Com + d)
  {
    var t := Trim(s);
    TrimEmptyIffBlank(s);
    if MatchIP(t).Some? {
      MatchIPSound(t);
      assert false;
    }
    LeftmostTag(t, Com, IsDigit, i);
    SerialPortOf(t, i, d);
  }

  /** A match with none before it is the one FirstTag finds. */
  lemma LeftmostTag(s: string, tag: string, follow: char -> bool, i: int)
    requires TagAt(s, i, tag, follow) && forall j | 0 <= j < i :: !TagAt(s, j, tag, follow)
    ensures FirstTag(s, tag, follow, 0) == Some(i)
  {
    FirstTagSpec(s, tag, follow, 0);
  }

  /** The port group of the leftmost COM match is the whole digit run. */
  lemma SerialPortOf(t: string, i: nat, d: string)
    requires FirstTag(t, Com, IsDigit, 0) == Some(i)
    requires DigitsAfterTag(t, i, d)
    ensures MatchSerialPort(t) == Some(d)
  {
    DigitsBetweenSlice(t, i + 3, i + 3 + |d|);
    RunIs(t, i + 3, i + 3 + |d|);
  }

  /** With no IPv4 address and no COM port, input holding tty followed by a
      word character comes back trimmed and otherwise unchanged. */
  lemma ProcessIPAddressTty(s: string, parse: AddressParser, i: int)
    requires forall addr, port :: !IPPatternMatches(Trim(s), addr, port)
    requires forall j :: !TagAt(Trim(s), j, Com, IsDigit)
    requires TagAt(Trim(s), i, Tty, IsWordChar)
    ensures ProcessIPAddress(Some(s), parse) == Some(Trim(s))
  {
    var t := Trim(s);
    TrimEmptyIffBlank(s);
    if MatchIP(t).Some? {
      MatchIPSound(t);
      assert false;
    }
    FirstTagSpec(t, Com, IsDigit, 0);
    FirstTagSpec(t, Tty, IsWordChar, 0);
  }

  /** Anything else is null. */
  lemma ProcessIPAddressOther(s: string, parse: AddressParser)
    requires forall addr, port :: !IPPatternMatches(Trim(s), addr, port)
    requires forall j :: !TagAt(Trim(s), j, Com, IsDigit)
    requires forall j :: !TagAt(Trim(s), j, Tty, IsWordChar)
    ensures ProcessIPAddress(Some(s), parse) == None
  {
    var t := Trim(s);
    if !IsBlank(s) {
      if MatchIP(t).Some? {
        MatchIPSound(t);
        assert false;
      }
      FirstTagSpec(t, Com, IsDigit, 0);
      FirstTagSpec(t, Tty, IsWordChar, 0);
    }
  }

  /** The number a string of decimal digits spells. */
  function DecimalValue(t: string): nat
    requires AllDigits(t)
  {
    if t == [] then 0 else 10 * DecimalValue(t[..|t| - 1]) + (t[|t| - 1] as int - '0' as int)
  }

  /** An octet as IPAddress.ToString writes it: at most 255, with no
      leading zero. */
  predicate IsCanonicalOctet(t: string) {
    IsOctet(t) && (|t| == 1 || t[0] != '0') && DecimalValue(t) <= 255
  }

  /** An IPv4 address in the form the parser gives back. */
  predicate IsCanonicalQuad(ip: string) {
    exists i, j, k {:trigger QuadAt(ip, i, j, k)} | 0 < i < j < k < |ip| ::
      QuadAt(ip, i, j, k) && IsCanonicalOctet(ip[..i]) && IsCanonicalOctet(ip[i + 1..j])
      && IsCanonicalOctet(ip[j + 1..k]) && IsCanonicalOctet(ip[k + 1..])
  }

  /** What is assumed of IPAddress.TryParse: an address already in
      canonical form is accepted and written back unchanged. */
  ghost predicate CanonicalParser(parse: AddressParser) {
    forall ip | IsCanonicalQuad(ip) :: parse(ip) == Some(ip)
  }

  /** Under that assumption an address already in canonical form, with or
      without a port, is stored exactly as trimmed. */
  lemma ProcessIPAddressCanonical(s: string, parse: AddressParser, addr: string, port: Option<string>)
    requires CanonicalParser(parse) && IsCanonicalQuad(addr)
    requires port.None? ==> Trim(s) == addr
    requires port.Some? ==> IsPort(port.value) && Trim(s) == addr + ":" + port.value
    ensures ProcessIPAddress(Some(s), parse) == Some(Trim(s))
  {
    CanonicalIsQuad(addr);
    assert IPPatternMatches(Trim(s), addr, port);
    ProcessIPAddressIPv4(s, parse, addr, port);
    assert parse(addr) == Some(addr);
    SuffixRestores(Trim(s), addr, port);
  }

  /** The address and its port suffix put back together. */
  lemma SuffixRestores(t: string, addr: string, port: Option<string>)
    requires port.None? ==> t == addr
    requires port.Some? ==> t == addr + ":" + port.value
    ensures addr + PortSuffix(port) == t
  {
    if port.Some? {
      assert addr + (":" + port.value) == addr + ":" + port.value;
    }
  }

  lemma CanonicalIsQuad(addr: string)
    requires IsCanonicalQuad(addr)
    ensures IsDottedQuad(addr)
  {
  }

  // ---------------------------------------------------------------------
  // Controllers
  // ---------------------------------------------------------------------

  /** A Controller row without its id; kind is the Type column. */
  datatype Controller = Controller(
    orgId: string, enabled: bool, name: string, kind: int, version: string,
    model: string, ip: string, latitude: Option<real>, longitude: Option<real>)

  /** The Controllers table by id. */
  type Controllers = map<int, Controller>

  /** A required text field: null or blank is refused, anything else is
      trimmed. */
  function RequiredText(s: Option<string>): (r: Result<string>)
    ensures r.Ok? <==> !IsNullOrWhiteSpace(s)
    ensures r.Err? ==> r.error == ArgumentNull
    ensures r.Ok? ==> r.value == Trim(s.value) && !IsBlank(r.value)
  {
    if IsNullOrWhiteSpace(s) then Err(ArgumentNull)
    else
      TrimmedNotBlank(s.value);
      Ok(Trim(s.value))
  }

  /** The address field: refused when it normalises to null. */
  function RequiredAddress(ip: Option<string>, parse: AddressParser): (r: Result<string>)
    ensures r.Ok? <==> ProcessIPAddress(ip, parse).Some?
    ensures r.Err? ==> r.error == ArgumentOutOfRange
    ensures r.Ok? ==> Some(r.value) == ProcessIPAddress(ip, parse)
  {
    match ProcessIPAddress(ip, parse)
    case None => Err(ArgumentOutOfRange)
    case Some(a) => Ok(a)
  }

  /** The checked fields of a controller write. */
  datatype Fields = Fields(name: string, version: string, model: string, ip: string)

  /** The checks both writes share, in the order the source makes them:
      name, a type of at least minKind, version, model, address. */
  function CheckFields(name: Option<string>, kind: int, minKind: int, version: Option<string>,
                       model: Option<string>, ip: Option<string>, parse: AddressParser): (r: Result<Fields>)
    ensures IsNullOrWhiteSpace(name) ==> r == Err(ArgumentNull)
    ensures !IsNullOrWhiteSpace(name) && kind < minKind ==> r == Err(ArgumentOutOfRange)
    ensures !IsNullOrWhiteSpace(name) && kind >= minKind && (IsNullOrWhiteSpace(version) || IsNullOrWhiteSpace(model))
      ==> r == Err(ArgumentNull)
    ensures r.Ok? <==> !IsNullOrWhiteSpace(name) && kind >= minKind && CommonFieldsValid(version, model, ip, parse)
    ensures r.Ok? ==> r.value == Fields(Trim(name.value), Trim(version.value), Trim(model.value), ProcessIPAddress(ip, parse).value)
  {
    var n :- RequiredText(name);
    if kind < minKind then Err(ArgumentOutOfRange)
    else
      var v :- RequiredText(version);
      var m :- RequiredText(model);
      var a :- RequiredAddress(ip, parse);
      Ok(Fields(n, v, m, a))
  }

  /** The fields both operations demand besides name and type: version,
      model and an address that normalises. */
  predicate CommonFieldsValid(version: Option<string>, model: Option<string>, ip: Option<string>, parse: AddressParser) {
    !IsNullOrWhiteSpace(version) && !IsNullOrWhiteSpace(model) && ProcessIPAddress(ip, parse).Some?
  }

  /** AddControllerAsync: the organisation is checked first, then the
      shared fields with a positive type, then the id must be new. */
  function AddController(st: Controllers, id: int, orgId: Option<string>, name: Option<string>, kind: int,
                         version: Option<string>, model: Option<string>, ip: Option<string>, enabled: bool,
                         latitude: Option<real>, longitude: Option<real>, parse: AddressParser): (r: Result<Controllers>)
    ensures IsNullOrWhiteSpace(orgId) ==> r == Err(ArgumentNull)
    ensures !IsNullOrWhiteSpace(orgId) && CheckFields(name, kind, 1, version, model, ip, parse).Err?
      ==> r == Err(CheckFields(name, kind, 1, version, model, ip, parse).error)
    ensures !IsNullOrWhiteSpace(orgId) && CheckFields(name, kind, 1, version, model, ip, parse).Ok? && id in st
      ==> r == Err(Application)
    ensures r.Ok? ==> id !in st && !IsNullOrWhiteSpace(orgId) && CheckFields(name, kind, 1, version, model, ip, parse).Ok?
  {
    var o :- RequiredText(orgId);
    var f :- CheckFields(name, kind, 1, version, model, ip, parse);
    if id in st then Err(Application)
    else Ok(st[id := Controller(o, enabled, f.name, kind, f.version, f.model, f.ip, latitude, longitude)])
  }

  /** UpdateControllerAsync: the controller must exist; then the shared
      fields with a non-negative type. The organisation stays. */
  function UpdateController(st: Controllers, id: int, enabled: bool, name: Option<string>, kind: int,
                            version: Option<string>, model: Option<string>, ip: Option<string>,
                            latitude: Option<real>, longitude: Option<real>, parse: AddressParser): (r: Result<Controllers>)
    ensures id !in st ==> r == Err(ArgumentOutOfRange)
    ensures id in st && CheckFields(name, kind, 0, version, model, ip, parse).Err?
      ==> r == Err(CheckFields(name, kind, 0, version, model, ip, parse).error)
    ensures r.Ok? ==> id in st && CheckFields(name, kind, 0, version, model, ip, parse).Ok?
  {
    if id !in st then Err(ArgumentOutOfRange)
    else
      var f :- CheckFields(name, kind, 0, version, model, ip, parse);
      Ok(st[id := st[id].(enabled := enabled, name := f.name, kind := kind, version := f.version,
                          model := f.model, ip := f.ip, latitude := latitude, longitude := longitude)])
  }

  /** AddControllerAsync succeeds exactly when every field passes and the
      id is new. */
  lemma AddControllerOk(st: Controllers, id: int, orgId: Option<string>, name: Option<string>, kind: int,
                        version: Option<string>, model: Option<string>, ip: Option<string>, enabled: bool,
                        latitude: Option<real>, longitude: Option<real>, parse: AddressParser)
    ensures AddController(st, id, orgId, name, kind, version, model, ip, enabled, latitude, longitude, parse).Ok?
      <==> !IsNullOrWhiteSpace(orgId) && !IsNullOrWhiteSpace(name) && kind > 0
           && CommonFieldsValid(version, model, ip, parse) && id !in st
  {
  }

  /** The row AddControllerAsync stores holds the trimmed texts and the
      normalised address, and no other row changes. */
  lemma AddControllerRow(st: Controllers, id: int, orgId: Option<string>, name: Option<string>, kind: int,
                         version: Option<string>, model: Option<string>, ip: Option<string>, enabled: bool,
                         latitude: Option<real>, longitude: Option<real>, parse: AddressParser)
    requires AddController(st, id, orgId, name, kind, version, model, ip, enabled, latitude, longitude, parse).Ok?
    ensures AddController(st, id, orgId, name, kind, version, model, ip, enabled, latitude, longitude, parse).value
      == st[id := Controller(Trim(orgId.value), enabled, Trim(name.value), kind, Trim(version.value),
                             Trim(model.value), ProcessIPAddress(ip, parse).value, latitude, longitude)]
  {
    var f := CheckFields(name, kind, 1, version, model, ip, parse).value;
    var o := Trim(orgId.value);
    assert RequiredText(orgId) == Ok(o);
    assert AddController(st, id, orgId, name, kind, version, model, ip, enabled, latitude, longitude, parse)
      == Ok(st[id := Controller(o, enabled, f.name, kind, f.version, f.model, f.ip, latitude, longitude)]);
  }

  /** UpdateControllerAsync succeeds exactly when the controller exists and
      every field passes. */
  lemma UpdateControllerOk(st: Controllers, id: int, enabled: bool, name: Option<string>, kind: int,
                           version: Option<string>, model: Option<string>, ip: Option<string>,
                           latitude: Option<real>, longitude: Option<real>, parse: AddressParser)
    ensures UpdateController(st, id, enabled, name, kind, version, model, ip, latitude, longitude, parse).Ok?
      <==> id in st && !IsNullOrWhiteSpace(name) && kind >= 0 && CommonFieldsValid(version, model, ip, parse)
  {
  }

  /** UpdateControllerAsync rewrites that row only, keeping its
      organisation. */
  lemma UpdateControllerRow(st: Controllers, id: int, enabled: bool, name: Option<string>, kind: int,
                            version: Option<string>, model: Option<string>, ip: Option<string>,
                            latitude: Option<real>, longitude: Option<real>, parse: AddressParser)
    requires UpdateController(st, id, enabled, name, kind, version, model, ip, latitude, longitude, parse).Ok?
    ensures UpdateController(st, id, enabled, name, kind, version, model, ip, latitude, longitude, parse).value
      == st[id := Controller(st[id].orgId, enabled, Trim(name.value), kind, Trim(version.value),
                             Trim(model.value), ProcessIPAddress(ip, parse).value, latitude, longitude)]
  {
    var f := CheckFields(name, kind, 0, version, model, ip, parse).value;
    assert UpdateController(st, id, enabled, name, kind, version, model, ip, latitude, longitude, parse)
      == Ok(st[id := st[id].(enabled := enabled, name := f.name, kind := kind, version := f.version,
                             model := f.model, ip := f.ip, latitude := latitude, longitude := longitude)]);
  }

  /** Type 0 is refused when a controller is added but accepted when one
      is updated. */
  lemma TypeZeroOnlyOnUpdate(st: Controllers, id: int, orgId: string, name: string, version: Option<string>,
                             model: Option<string>, ip: Option<string>, parse: AddressParser)
    requires !IsBlank(orgId) && !IsBlank(name) && CommonFieldsValid(version, model, ip, parse) && id in st
    ensures AddController(st, id, Some(orgId), Some(name), 0, version, model, ip, true, None, None, parse) == Err(ArgumentOutOfRange)
    ensures UpdateController(st, id, true, Some(name), 0, version, model, ip, None, None, parse).Ok?
  {
  }
}
