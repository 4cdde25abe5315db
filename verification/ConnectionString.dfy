/** Parsing of host:port/user:password@database by the MySQL store, with its size_t arithmetic. */
module ConnectionString {
  import opened Seqs
  import opened Strings
  import opened Decimal

  const SIZE: int := 0x1_0000_0000_0000_0000
  const NPOS: Size := SIZE - 1
  const INT_MAX := 0x7FFF_FFFF
  const INT_MIN := -0x8000_0000

  /** No string reaches the length that stands for "not found". */
  type Text = s: string | |s| < NPOS witness ""

  /** size_t, with its wrap-around. */
  type Size = n: int | 0 <= n < SIZE
  function Plus(a: Size, b: Size): Size { if a + b < SIZE then a + b else a + b - SIZE }
  function Minus(a: Size, b: Size): Size { if b <= a then a - b else a - b + SIZE }

  /** `find` of a character, with npos for absence. */
  function Pos(s: Text, c: char, from: Size): (r: Size)
    ensures r == NPOS || from <= r < |s|
  {
    match IndexOf(s, c, from) case Some(i) => i case None => NPOS
  }

  function Substr(s: Text, pos: Size, count: Size): Text
    requires pos <= |s|
  {
    if count >= |s| - pos then s[pos..] else s[pos..pos + count]
  }

  // std::stoi

  predicate IsSpace(c: char) { c == ' ' || c == '\t' || c == '\n' || c == '\U{000B}' || c == '\U{000C}' || c == '\r' }

  function SkipSpace(s: string): string { if s != [] && IsSpace(s[0]) then SkipSpace(s[1..]) else s }

  function DigitPrefix(s: string): (r: string)
    ensures AllDigits(r)
  {
    if s != [] && IsDigit(s[0]) then [s[0]] + DigitPrefix(s[1..]) else []
  }

  /** `None` when it throws: no digits, or a value outside int. */
  function Stoi(s: string): Option<int> {
    var t := SkipSpace(s);
    var negative := t != [] && t[0] == '-';
    var signed := t != [] && (t[0] == '-' || t[0] == '+');
    var digits := DigitPrefix(if signed then t[1..] else t);
    if digits == [] then None else
      var n: int := if negative then -(ValueOf(digits) as int) else ValueOf(digits);
      if INT_MIN <= n <= INT_MAX then Some(n) else None
  }

  lemma {:induction false} DigitPrefixAll(s: string)
    requires AllDigits(s)
    ensures DigitPrefix(s) == s
  {
    if s != [] { DigitPrefixAll(s[1..]); }
  }

  lemma StoiDigits(s: string)
    requires s != [] && AllDigits(s)
    ensures Stoi(s) == if ValueOf(s) <= INT_MAX then Some(ValueOf(s)) else None
  {
    assert IsDigit(s[0]);
    DigitPrefixAll(s);
  }

  // The parser.

  datatype Settings = Settings(host: string, port: int, user: string, password: string, database: string)

  /** `Thrown` carries the fields as the exception leaves them. */
  datatype Parse = Parsed(settings: Settings) | Thrown(settings: Settings)

  // The five parts, from the positions of the first slash and the first at sign.

  function HostAndPort(cs: Text, slash: Size): Text { Substr(cs, 0, slash) }

  function HostPart(whole: Text): Text {
    var colon := Pos(whole, ':', 0);
    if colon == NPOS then whole else Substr(whole, 0, colon)
  }

  function PortPart(whole: Text): Option<int> {
    var colon := Pos(whole, ':', 0);
    if colon == NPOS then Some(3306) else
      match Stoi(Substr(whole, Plus(colon, 1), NPOS))
      case Some(n) => Some(n % 0x1_0000)
      case None => None
  }

  function UserPart(cs: Text, slash: Size, colon: Size): Text
    requires slash == NPOS || slash < |cs|
  {
    Substr(cs, Plus(slash, 1), Minus(Minus(colon, slash), 1))
  }

  function PasswordPart(cs: Text, colon: Size, atPos: Size): Text
    requires colon < |cs|
  {
    Substr(cs, colon + 1, Minus(Minus(atPos, colon), 1))
  }

  function DatabasePart(cs: Text, atPos: Size): Text
    requires atPos == NPOS || atPos < |cs|
  {
    Substr(cs, Plus(atPos, 1), NPOS)
  }

  function ParseFrom(before: Settings, cs: Text): Parse {
    var atPos := Pos(cs, '@', 0);
    var slash := Pos(cs, '/', 0);
    var whole := HostAndPort(cs, slash);
    var port := PortPart(whole);
    if port.None? then Thrown(before.(host := whole, port := 3306)) else
      var colon := Pos(cs, ':', Plus(slash, 1));
      Parsed(Settings(
        HostPart(whole),
        port.value,
        if colon == NPOS then before.user else UserPart(cs, slash, colon),
        if colon == NPOS then before.password else PasswordPart(cs, colon, atPos),
        DatabasePart(cs, atPos)))
  }

  class MysqlSettings {
    var host: string
    var port: int
    var user: string
    var password: string
    var database: string

    function View(): Settings
      reads this
    {
      Settings(host, port, user, password, database)
    }

    constructor ()
      ensures View() == Settings("", 3306, "", "", "")
    {
      host, port, user, password, database := "", 3306, "", "", "";
    }

    /** The parsing half of `initialize`, assigning field by field. */
    method Initialize(cs: Text) returns (threw: bool)
      modifies this
      ensures threw <==> ParseFrom(old(View()), cs).Thrown?
      ensures View() == ParseFrom(old(View()), cs).settings
    {
      var atPos := Pos(cs, '@', 0);
      var slashPos := Pos(cs, '/', 0);
      var whole := HostAndPort(cs, slashPos);
      host := whole;
      port := 3306;
      var portStart := Pos(whole, ':', 0);
      if portStart != NPOS {
        var parsed := Stoi(Substr(whole, Plus(portStart, 1), NPOS));
        if parsed.None? {
          return true;
        }
        port := parsed.value % 0x1_0000;
        host := Substr(whole, 0, portStart);
      }
      assert PortPart(whole) == Some(port) && HostPart(whole) == host;
      var colon := Pos(cs, ':', Plus(slashPos, 1));
      if colon != NPOS {
        user := UserPart(cs, slashPos, colon);
        password := PasswordPart(cs, colon, atPos);
      }
      database := DatabasePart(cs, atPos);
      return false;
    }
  }

  // The printer.

  function Printed(host: string, port: string, user: string, password: string, database: string): string {
    host + ":" + port + "/" + user + ":" + password + "@" + database
  }

  /** The parts can be told apart in the printed text. */
  predicate Separable(host: string, user: string, password: string) {
    && ':' !in host && '/' !in host && '@' !in host
    && ':' !in user && '@' !in user
    && '@' !in password
  }

  lemma PosIs(s: Text, c: char, from: Size, at: Size)
    requires from <= at < |s| && s[at] == c
    ensures Pos(s, c, from) <= at
    ensures Pos(s, c, from) == at <==> c !in s[from..at]
  {
    var p := Pos(s, c, from);
    if p < at { assert s[from..at][p - from] == c; }
  }

  /** Where the separators of the printed text stand. */
  datatype Layout = Layout(slash: nat, colon: nat, at: nat)

  function LayoutOf(host: string, port: string, user: string, password: string): Layout {
    var slash := |host| + 1 + |port|;
    var colon := slash + 1 + |user|;
    Layout(slash, colon, colon + 1 + |password|)
  }

  /** The parts stand in `cs` where the printer puts them, with its separators between them. */
  predicate LaidOut(cs: string, host: string, port: string, user: string, password: string, database: string) {
    var l := LayoutOf(host, port, user, password);
    && l.at < |cs|
    && cs[..|host|] == host && cs[|host|] == ':' && cs[|host| + 1..l.slash] == port
    && cs[l.slash] == '/' && cs[l.slash + 1..l.colon] == user
    && cs[l.colon] == ':' && cs[l.colon + 1..l.at] == password
    && cs[l.at] == '@' && cs[l.at + 1..] == database
  }

  lemma PrintedIsLaidOut(host: string, port: string, user: string, password: string, database: string)
    ensures LaidOut(Printed(host, port, user, password, database), host, port, user, password, database)
  {
    var front := host + ":" + port + "/" + user;
    var back := ":" + password + "@" + database;
    assert Printed(host, port, user, password, database) == front + back;
  }

  /** The text before the slash splits at its first colon. */
  lemma ColonSplits(whole: Text, host: string, port: string)
    requires whole == host + ":" + port && ':' !in host
    ensures Pos(whole, ':', 0) == |host|
    ensures HostPart(whole) == host && Substr(whole, |host| + 1, NPOS) == port
  {
    assert whole[|host|] == ':' && whole[0..|host|] == host;
    PosIs(whole, ':', 0, |host|);
  }

  lemma PortAfterColon(whole: Text, colon: Size, port: string)
    requires colon < |whole| && Pos(whole, ':', 0) == colon && Substr(whole, colon + 1, NPOS) == port
    requires port != [] && AllDigits(port) && ValueOf(port) <= 0xFFFF
    ensures PortPart(whole) == Some(ValueOf(port))
  {
    StoiDigits(port);
  }

  lemma WholeIs(cs: Text, host: string, port: string, slash: Size)
    requires slash < |cs| && slash == |host| + 1 + |port|
    requires cs[..|host|] == host && cs[|host|] == ':' && cs[|host| + 1..slash] == port
    ensures HostAndPort(cs, slash) == host + ":" + port
  {
  }

  lemma HostPortAtLayout(cs: Text, host: string, port: string, slash: Size)
    requires slash < |cs| && slash == |host| + 1 + |port|
    requires cs[..|host|] == host && cs[|host|] == ':' && cs[|host| + 1..slash] == port
    requires port != [] && AllDigits(port) && ':' !in host && ValueOf(port) <= 0xFFFF
    ensures HostPart(HostAndPort(cs, slash)) == host
    ensures PortPart(HostAndPort(cs, slash)) == Some(ValueOf(port))
  {
    WholeIs(cs, host, port, slash);
    ColonSplits(HostAndPort(cs, slash), host, port);
    PortAfterColon(HostAndPort(cs, slash), |host|, port);
  }

  lemma RestAtLayout(cs: Text, slash: Size, colon: Size, at: Size)
    requires slash < colon < at < |cs|
    ensures UserPart(cs, slash, colon) == cs[slash + 1..colon]
    ensures PasswordPart(cs, colon, at) == cs[colon + 1..at]
    ensures DatabasePart(cs, at) == cs[at + 1..]
  {
    assert Minus(Minus(colon, slash), 1) == colon - slash - 1;
    assert Minus(Minus(at, colon), 1) == at - colon - 1;
  }

  /** What the parser computes once the three separators are found. */
  lemma ParseAt(before: Settings, cs: Text, slash: Size, colon: Size, at: Size)
    requires slash < colon < at < |cs|
    requires Pos(cs, '@', 0) == at && Pos(cs, '/', 0) == slash && Pos(cs, ':', slash + 1) == colon
    requires PortPart(HostAndPort(cs, slash)).Some?
    ensures ParseFrom(before, cs)
            == Parsed(Settings(HostPart(HostAndPort(cs, slash)), PortPart(HostAndPort(cs, slash)).value,
                               cs[slash + 1..colon], cs[colon + 1..at], cs[at + 1..]))
  {
    assert Plus(slash, 1) == slash + 1 && colon != NPOS;
    RestAtLayout(cs, slash, colon, at);
  }

  /** When the separators are where the printer put them, the parser recovers every part. */
  lemma RecoversAt(before: Settings, cs: Text, host: string, port: string, slash: Size, colon: Size, at: Size)
    requires slash == |host| + 1 + |port| && slash < colon < at < |cs|
    requires cs[..|host|] == host && cs[|host|] == ':' && cs[|host| + 1..slash] == port
    requires port != [] && AllDigits(port) && ValueOf(port) <= 0xFFFF && ':' !in host
    requires Pos(cs, '@', 0) == at && Pos(cs, '/', 0) == slash && Pos(cs, ':', slash + 1) == colon
    ensures ParseFrom(before, cs)
            == Parsed(Settings(host, ValueOf(port), cs[slash + 1..colon], cs[colon + 1..at], cs[at + 1..]))
  {
    HostPortAtLayout(cs, host, port, slash);
    ParseAt(before, cs, slash, colon, at);
  }

  /** The same, with the parts named. */
  lemma RecoversParts(before: Settings, cs: Text, parts: Settings, port: string, slash: Size, colon: Size, at: Size)
    requires slash == |parts.host| + 1 + |port| && slash < colon < at < |cs|
    requires cs[..|parts.host|] == parts.host && cs[|parts.host|] == ':' && cs[|parts.host| + 1..slash] == port
    requires port != [] && AllDigits(port) && ValueOf(port) == parts.port <= 0xFFFF && ':' !in parts.host
    requires Pos(cs, '@', 0) == at && Pos(cs, '/', 0) == slash && Pos(cs, ':', slash + 1) == colon
    requires cs[slash + 1..colon] == parts.user && cs[colon + 1..at] == parts.password && cs[at + 1..] == parts.database
    ensures ParseFrom(before, cs) == Parsed(parts)
  {
    RecoversAt(before, cs, parts.host, port, slash, colon, at);
  }

  lemma AbsentFromBoth(cs: string, c: char, a: nat, b: nat, d: nat)
    requires a <= b < d <= |cs| && c !in cs[a..b] && cs[b] != c && c !in cs[b + 1..d]
    ensures c !in cs[a..d]
  {
    assert cs[a..d] == cs[a..b] + [cs[b]] + cs[b + 1..d];
  }

  lemma SeparableLayout(cs: Text, host: string, port: string, user: string, password: string, database: string)
    requires LaidOut(cs, host, port, user, password, database) && AllDigits(port)
    requires Separable(host, user, password)
    ensures var l := LayoutOf(host, port, user, password);
            && Pos(cs, '@', 0) == l.at && Pos(cs, '/', 0) == l.slash && Pos(cs, ':', l.slash + 1) == l.colon
  {
    var l := LayoutOf(host, port, user, password);
    assert cs[0..|host|] == host;
    AbsentFromBoth(cs, '/', 0, |host|, l.slash);
    PosIs(cs, '/', 0, l.slash);
    PosIs(cs, ':', l.slash + 1, l.colon);
    AbsentFromBoth(cs, '@', 0, |host|, l.slash);
    AbsentFromBoth(cs, '@', 0, l.slash, l.colon);
    AbsentFromBoth(cs, '@', 0, l.colon, l.at);
    PosIs(cs, '@', 0, l.at);
  }

  /** A host that is recovered holds no colon and no slash. */
  lemma RecoveredHost(
    before: Settings, cs: Text, host: string, port: string, user: string, password: string, database: string)
    requires LaidOut(cs, host, port, user, password, database) && AllDigits(port)
    requires ParseFrom(before, cs).Parsed? && ParseFrom(before, cs).settings.host == host
    ensures ':' !in host && '/' !in host && Pos(cs, '/', 0) == LayoutOf(host, port, user, password).slash
  {
    var l := LayoutOf(host, port, user, password);
    PosIs(cs, '/', 0, l.slash);
    var slash := Pos(cs, '/', 0);
    assert slash >= |host|;
    assert slash != |host|;
    forall i | |host| < i < l.slash ensures cs[i] != '/' { assert cs[i] == port[i - |host| - 1]; }
    assert slash == l.slash;
    var whole: Text := cs[..l.slash];
    assert whole[|host|] == ':' && whole[0..|host|] == host;
    PosIs(whole, ':', 0, |host|);
    assert cs[0..l.slash][..|host|] == host;
  }

  lemma UserLength(cs: Text, slash: Size, colon: Size)
    requires slash < colon < |cs|
    ensures |UserPart(cs, slash, colon)| == colon - slash - 1
  {
  }

  lemma PasswordLength(cs: Text, colon: Size, at: Size)
    requires colon < |cs| && at < |cs| && at != colon
    ensures |PasswordPart(cs, colon, at)| == if at < colon then |cs| - colon - 1 else at - colon - 1
  {
  }

  /** A user recovered from the right slash ends at the printed colon. */
  lemma RecoveredUser(cs: Text, slash: Size, colon: Size, user: string)
    requires slash + 1 + |user| == colon < |cs| && cs[colon] == ':' && cs[slash + 1..colon] == user
    requires UserPart(cs, slash, Pos(cs, ':', slash + 1)) == user
    ensures Pos(cs, ':', slash + 1) == colon && ':' !in user
  {
    PosIs(cs, ':', slash + 1, colon);
    UserLength(cs, slash, Pos(cs, ':', slash + 1));
  }

  /** A password recovered from the right colon ends at the printed at sign. */
  lemma RecoveredPassword(cs: Text, colon: Size, at: Size, password: string)
    requires colon + 1 + |password| == at < |cs| && cs[colon] == ':' && cs[at] == '@'
    requires PasswordPart(cs, colon, Pos(cs, '@', 0)) == password
    ensures Pos(cs, '@', 0) == at
  {
    PosIs(cs, '@', 0, at);
    PasswordLength(cs, colon, Pos(cs, '@', 0));
  }

  /** User and password of a parse that found a colon after the slash. */
  lemma ParsedRest(before: Settings, cs: Text, slash: Size, colon: Size)
    requires ParseFrom(before, cs).Parsed? && Pos(cs, '/', 0) == slash < |cs| && Pos(cs, ':', slash + 1) == colon < |cs|
    ensures ParseFrom(before, cs).settings.user == UserPart(cs, slash, colon)
    ensures ParseFrom(before, cs).settings.password == PasswordPart(cs, colon, Pos(cs, '@', 0))
  {
  }

  lemma RecoveredRest(before: Settings, cs: Text, slash: Size, colon: Size, at: Size, user: string, password: string)
    requires slash + 1 + |user| == colon && colon + 1 + |password| == at < |cs|
    requires cs[slash + 1..colon] == user && cs[colon] == ':' && cs[at] == '@'
    requires ParseFrom(before, cs).Parsed? && Pos(cs, '/', 0) == slash
    requires ParseFrom(before, cs).settings.user == user && ParseFrom(before, cs).settings.password == password
    ensures Pos(cs, '@', 0) == at && ':' !in user
  {
    PosIs(cs, ':', slash + 1, colon);
    ParsedRest(before, cs, slash, Pos(cs, ':', slash + 1));
    RecoveredUser(cs, slash, colon, user);
    RecoveredPassword(cs, colon, at, password);
  }

  lemma NoAtSign(cs: Text, host: string, port: string, user: string, password: string, database: string)
    requires LaidOut(cs, host, port, user, password, database)
    requires Pos(cs, '@', 0) == LayoutOf(host, port, user, password).at
    ensures '@' !in host && '@' !in user && '@' !in password
  {
    var l := LayoutOf(host, port, user, password);
    PosIs(cs, '@', 0, l.at);
    var front := cs[0..l.at];
    assert front[..|host|] == host && front[l.slash + 1..l.colon] == user && front[l.colon + 1..] == password;
  }

  lemma SeparableRecovers(
    before: Settings, cs: Text, host: string, port: string, user: string, password: string, database: string)
    requires LaidOut(cs, host, port, user, password, database)
    requires port != [] && AllDigits(port) && ValueOf(port) <= 0xFFFF && Separable(host, user, password)
    ensures ParseFrom(before, cs) == Parsed(Settings(host, ValueOf(port), user, password, database))
  {
    var l := LayoutOf(host, port, user, password);
    SeparableLayout(cs, host, port, user, password, database);
    RecoversParts(before, cs, Settings(host, ValueOf(port), user, password, database), port, l.slash, l.colon, l.at);
  }

  lemma RecoveredIsSeparable(
    before: Settings, cs: Text, host: string, port: string, user: string, password: string, database: string)
    requires LaidOut(cs, host, port, user, password, database) && AllDigits(port)
    requires ParseFrom(before, cs) == Parsed(Settings(host, ValueOf(port), user, password, database))
    ensures Separable(host, user, password)
  {
    var l := LayoutOf(host, port, user, password);
    RecoveredHost(before, cs, host, port, user, password, database);
    RecoveredRest(before, cs, l.slash, l.colon, l.at, user, password);
    NoAtSign(cs, host, port, user, password, database);
  }

  lemma ParsedPortFits(before: Settings, cs: Text)
    ensures ParseFrom(before, cs).Parsed? ==> ParseFrom(before, cs).settings.port <= 0xFFFF
  {
  }

  /**
   * Printing host:port/user:password@database and parsing it recovers all five parts exactly when
   * the parts are separable and the port fits in 16 bits; the password may hold colons and slashes,
   * and the database anything.
   */
  lemma RoundTrip(
    before: Settings, cs: Text, host: string, port: string, user: string, password: string, database: string)
    requires cs == Printed(host, port, user, password, database)
    requires port != [] && AllDigits(port)
    ensures ParseFrom(before, cs) == Parsed(Settings(host, ValueOf(port), user, password, database))
            <==> Separable(host, user, password) && ValueOf(port) <= 0xFFFF
  {
    PrintedIsLaidOut(host, port, user, password, database);
    if Separable(host, user, password) && ValueOf(port) <= 0xFFFF {
      SeparableRecovers(before, cs, host, port, user, password, database);
    }
    if ParseFrom(before, cs) == Parsed(Settings(host, ValueOf(port), user, password, database)) {
      RecoveredIsSeparable(before, cs, host, port, user, password, database);
      ParsedPortFits(before, cs);
    }
  }

  /** The same for a numeric port in 16 bits. */
  lemma NumericPortRoundTrip(
    before: Settings, cs: Text, host: string, port: nat, user: string, password: string, database: string)
    requires cs == Printed(host, Print(port), user, password, database) && port <= 0xFFFF
    ensures ParseFrom(before, cs) == Parsed(Settings(host, port, user, password, database))
            <==> Separable(host, user, password)
  {
    PrintThenRead(port);
    RoundTrip(before, cs, host, Print(port), user, password, database);
  }

  // Text without a port.

  /** The parts of host/user:password@database stand at these positions. */
  predicate Portless(cs: string, host: string, user: string, password: string, database: string) {
    var slash := |host|;
    var colon := slash + 1 + |user|;
    var at := colon + 1 + |password|;
    && at < |cs|
    && cs[..slash] == host && cs[slash] == '/' && cs[slash + 1..colon] == user && cs[colon] == ':'
    && cs[colon + 1..at] == password && cs[at] == '@' && cs[at + 1..] == database
  }

  lemma PortlessIs(cs: string, host: string, user: string, password: string, database: string)
    requires cs == host + "/" + user + ":" + password + "@" + database
    ensures Portless(cs, host, user, password, database)
  {
    var front := host + "/" + user;
    assert cs == front + (":" + password + "@" + database);
  }

  lemma PortlessRecovers(before: Settings, cs: Text, host: string, user: string, password: string, database: string)
    requires Portless(cs, host, user, password, database) && Separable(host, user, password)
    ensures ParseFrom(before, cs) == Parsed(Settings(host, 3306, user, password, database))
  {
    var slash := |host|;
    var colon := slash + 1 + |user|;
    var at := colon + 1 + |password|;
    assert cs[0..slash] == host;
    PosIs(cs, '/', 0, slash);
    PosIs(cs, ':', slash + 1, colon);
    AbsentFromBoth(cs, '@', 0, slash, colon);
    AbsentFromBoth(cs, '@', 0, colon, at);
    PosIs(cs, '@', 0, at);
    assert HostAndPort(cs, slash) == host;
    ParseAt(before, cs, slash, colon, at);
  }

  lemma PortlessHost(before: Settings, cs: Text, host: string)
    requires |host| < |cs| && cs[..|host|] == host && cs[|host|] == '/'
    requires ParseFrom(before, cs).Parsed? && ParseFrom(before, cs).settings.host == host
    ensures ':' !in host && '/' !in host && Pos(cs, '/', 0) == |host|
  {
    PosIs(cs, '/', 0, |host|);
    var slash := Pos(cs, '/', 0);
    var whole := HostAndPort(cs, slash);
    assert |HostPart(whole)| <= |whole| == slash;
    assert slash == |host| && whole == host && cs[0..|host|] == host;
    assert ':' in host ==> |HostPart(whole)| < |whole|;
  }

  lemma PortlessSeparable(before: Settings, cs: Text, host: string, user: string, password: string, database: string)
    requires Portless(cs, host, user, password, database)
    requires ParseFrom(before, cs) == Parsed(Settings(host, 3306, user, password, database))
    ensures Separable(host, user, password)
  {
    var slash := |host|;
    var colon := slash + 1 + |user|;
    var at := colon + 1 + |password|;
    PortlessHost(before, cs, host);
    RecoveredRest(before, cs, slash, colon, at, user, password);
    PosIs(cs, '@', 0, at);
    var front := cs[0..at];
    assert front[..slash] == host && front[slash + 1..colon] == user && front[colon + 1..] == password;
  }

  /** Without a port the text parses with the default port, exactly when the parts are separable. */
  lemma DefaultPortRoundTrip(
    before: Settings, cs: Text, host: string, user: string, password: string, database: string)
    requires cs == host + "/" + user + ":" + password + "@" + database
    ensures ParseFrom(before, cs) == Parsed(Settings(host, 3306, user, password, database))
            <==> Separable(host, user, password)
  {
    PortlessIs(cs, host, user, password, database);
    if Separable(host, user, password) {
      PortlessRecovers(before, cs, host, user, password, database);
    } else if ParseFrom(before, cs) == Parsed(Settings(host, 3306, user, password, database)) {
      PortlessSeparable(before, cs, host, user, password, database);
    }
  }

  // Malformed text.

  /**
   * The text between the first colon and the first slash decides: what `std::stoi` reads, cut to 16
   * bits, is the port; when it throws, the host field keeps both and nothing after it is assigned.
   */
  lemma PortTextDecides(before: Settings, cs: Text, host: string, port: Text, rest: string)
    requires cs == host + ":" + port + "/" + rest && ':' !in host && '/' !in host && '/' !in port
    ensures match Stoi(port)
            case None => ParseFrom(before, cs) == Thrown(before.(host := host + ":" + port, port := 3306))
            case Some(n) =>
              var p := ParseFrom(before, cs);
              p.Parsed? && p.settings.host == host && p.settings.port == n % 0x1_0000
  {
    var whole: Text := host + ":" + port;
    assert cs[0..|whole|] == whole && cs[..|whole|] == whole && cs[|whole|] == '/';
    PosIs(cs, '/', 0, |whole|);
    assert HostAndPort(cs, |whole|) == whole;
    ColonSplits(whole, host, port);
  }

  /** Without a colon after the slash the credentials stay as they were. */
  lemma WithoutCredentials(before: Settings, cs: Text, host: string, rest: string)
    requires cs == host + "/" + rest && '/' !in host && ':' !in rest
    ensures ParseFrom(before, cs).settings.user == before.user
    ensures ParseFrom(before, cs).settings.password == before.password
  {
    assert cs[0..|host|] == host && cs[|host|] == '/';
    PosIs(cs, '/', 0, |host|);
    var colon := Pos(cs, ':', |host| + 1);
    assert cs[|host| + 1..] == rest && ':' !in cs[|host| + 1..];
  }

  /** Without an at sign the database is the whole text. */
  lemma WithoutAt(before: Settings, cs: Text)
    requires '@' !in cs && ParseFrom(before, cs).Parsed?
    ensures ParseFrom(before, cs).settings.database == cs
  {
    assert Pos(cs, '@', 0) == NPOS;
    assert Substr(cs, 0, NPOS) == cs;
  }

  /** Text with none of the separators is both host and database. */
  lemma BareText(before: Settings, cs: Text)
    requires '@' !in cs && '/' !in cs && ':' !in cs
    ensures ParseFrom(before, cs) == Parsed(Settings(cs, 3306, before.user, before.password, cs))
  {
    assert Pos(cs, '@', 0) == NPOS && Pos(cs, '/', 0) == NPOS && Pos(cs, ':', 0) == NPOS;
    assert Substr(cs, 0, NPOS) == cs;
  }

  // What std::stoi reads.

  lemma {:induction false} DigitPrefixIs(digits: string, rest: string)
    requires AllDigits(digits) && (rest != [] ==> !IsDigit(rest[0]))
    ensures DigitPrefix(digits + rest) == digits
  {
    if digits == [] {
      assert digits + rest == rest;
    } else {
      assert (digits + rest)[1..] == digits[1..] + rest;
      DigitPrefixIs(digits[1..], rest);
    }
  }

  lemma {:induction false} SpaceSkipped(space: string, rest: string)
    requires (forall i :: 0 <= i < |space| ==> IsSpace(space[i])) && (rest != [] ==> !IsSpace(rest[0]))
    ensures SkipSpace(space + rest) == rest
  {
    if space == [] {
      assert space + rest == rest;
    } else {
      assert (space + rest)[1..] == space[1..] + rest;
      SpaceSkipped(space[1..], rest);
    }
  }

  /** The white space of the C locale. */
  const SPACES := " \t\n\U{000B}\U{000C}\r"

  lemma SpaceIff(c: char)
    ensures IsSpace(c) <==> c in SPACES
  {
    assert SPACES == [' ', '\t', '\n', '\U{000B}', '\U{000C}', '\r'];
  }

  lemma StoiSkips(space: string, t: string)
    requires (forall i :: 0 <= i < |space| ==> space[i] in SPACES) && (t != [] ==> t[0] !in SPACES)
    ensures Stoi(space + t) == Stoi(t)
  {
    forall i | 0 <= i < |space| ensures IsSpace(space[i]) { SpaceIff(space[i]); }
    if t != [] { SpaceIff(t[0]); }
    SpaceSkipped(space, t);
    SpaceSkipped([], t);
    assert [] + t == t;
  }

  /** The number whose digits are read, unless it leaves the range of int. */
  function InRange(negative: bool, digits: string): Option<int>
    requires AllDigits(digits)
  {
    var n: int := if negative then -(ValueOf(digits) as int) else ValueOf(digits);
    if digits != [] && -2147483648 <= n <= 2147483647 then Some(n) else None
  }

  lemma StoiUnsigned(t: string)
    requires t != [] && IsDigit(t[0])
    ensures Stoi(t) == InRange(false, DigitPrefix(t))
  {
  }

  lemma StoiAfterSign(c: char, t: string)
    requires c == '+' || c == '-'
    ensures Stoi([c] + t) == InRange(c == '-', DigitPrefix(t))
  {
    assert ([c] + t)[1..] == t && ([c] + t)[0] == c;
  }

  lemma StoiSigned(sign: string, digits: string, rest: string)
    requires sign == "" || sign == "+" || sign == "-"
    requires digits != [] && AllDigits(digits) && (rest != [] ==> !IsDigit(rest[0]))
    ensures Stoi(sign + (digits + rest)) == InRange(sign == "-", digits)
  {
    DigitPrefixIs(digits, rest);
    if sign == "" {
      assert IsDigit(digits[0]) && sign + (digits + rest) == digits + rest;
      StoiUnsigned(digits + rest);
    } else {
      StoiAfterSign(sign[0], digits + rest);
    }
  }

  lemma NumberNoSpace(sign: string, digits: string, rest: string)
    requires sign == "" || sign == "+" || sign == "-"
    requires digits != [] && IsDigit(digits[0])
    ensures (sign + (digits + rest))[0] !in SPACES
  {
    assert (sign + (digits + rest))[0] == if sign == "" then digits[0] else sign[0];
    SpaceIff((sign + (digits + rest))[0]);
  }

  /** White space, a sign, digits and anything after them: the signed number, unless it leaves the range of int. */
  lemma StoiReads(space: string, sign: string, digits: string, rest: string)
    requires forall i :: 0 <= i < |space| ==> space[i] in SPACES
    requires sign == "" || sign == "+" || sign == "-"
    requires digits != [] && AllDigits(digits) && (rest != [] ==> !IsDigit(rest[0]))
    ensures var n: int := if sign == "-" then -(ValueOf(digits) as int) else ValueOf(digits);
            Stoi(space + (sign + (digits + rest))) == if -2147483648 <= n <= 2147483647 then Some(n) else None
  {
    NumberNoSpace(sign, digits, rest);
    StoiSkips(space, sign + (digits + rest));
    StoiSigned(sign, digits, rest);
  }

  /** No digit where the number should begin: it throws. */
  lemma StoiThrows(space: string, sign: string, rest: string)
    requires forall i :: 0 <= i < |space| ==> space[i] in SPACES
    requires sign == "" || sign == "+" || sign == "-"
    requires rest != [] ==> !IsDigit(rest[0])
    requires sign == "" && rest != [] ==> rest[0] !in SPACES && rest[0] != '-' && rest[0] != '+'
    ensures Stoi(space + (sign + rest)) == None
  {
    forall i | 0 <= i < |space| ensures IsSpace(space[i]) { SpaceIff(space[i]); }
    if rest != [] { SpaceIff(rest[0]); }
    var t := sign + rest;
    SpaceSkipped(space, t);
    assert t[|sign|..] == rest;
    if sign == "" { assert t == rest; }
  }
}
