/** RTSP URIs (`RtspUri`, section 3.2 of RFC 2326): rtsp://host[:port]/[path/]name. */
module RtspUri {
  import opened Words

  datatype Uri = Uri(server: string, port: u32, path: string, name: string)

  const DEFAULT_PORT: u32 := 554
  const SCHEME: string := "rtsp://"

  // ------------------------------------------------------------------
  // Strings
  // ------------------------------------------------------------------

  /** Position of the first `c`, or the length when there is none. */
  function Find(s: string, c: char): (i: nat)
    ensures i <= |s| && (forall j :: 0 <= j < i ==> s[j] != c) && (i < |s| ==> s[i] == c)
  {
    if s == [] || s[0] == c then 0 else 1 + Find(s[1..], c)
  }

  /** One past the position of the last `c`, or 0 when there is none. */
  function FindLast(s: string, c: char): (i: nat)
    ensures i <= |s| && (forall j :: i <= j < |s| ==> s[j] != c) && (i > 0 ==> s[i - 1] == c)
  {
    if s == [] || s[|s| - 1] == c then |s| else FindLast(s[..|s| - 1], c)
  }

  function Digit(d: nat): char
    requires d < 10
  {
    '0' + d as char
  }

  predicate IsDigit(c: char) { '0' <= c <= '9' }

  function Value(c: char): (d: nat)
    requires IsDigit(c)
    ensures d < 10
  {
    (c - '0') as nat
  }

  /** Decimal digits of a number. */
  function Decimal(n: nat): string {
    if n < 10 then [Digit(n)] else Decimal(n / 10) + [Digit(n % 10)]
  }

  /** The digits at the front of a string. */
  function Leading(s: string): (i: nat)
    ensures i <= |s| && (forall j :: 0 <= j < i ==> IsDigit(s[j])) && (i < |s| ==> !IsDigit(s[i]))
  {
    if s == [] || !IsDigit(s[0]) then 0 else 1 + Leading(s[1..])
  }

  function NumberOf(s: string): nat
    requires forall i :: 0 <= i < |s| ==> IsDigit(s[i])
  {
    if s == [] then 0 else 10 * NumberOf(s[..|s| - 1]) + Value(s[|s| - 1])
  }

  /**
   * `istr >> port`: leading digits; too large a number gives the maximum and none gives 0,
   * but an empty text leaves the port as it was.
   */
  function ReadPort(s: string, port: u32): u32 {
    var v := NumberOf(s[..Leading(s)]);
    if s == "" then port else if v < 0x1_0000_0000 then v else 0xFFFF_FFFF
  }

  // ------------------------------------------------------------------
  // Printing and parsing
  // ------------------------------------------------------------------

  function FullUri(u: Uri): string {
    (if u.server != "" then SCHEME + u.server + (if u.port > 0 then ":" + Decimal(u.port) else "") else "")
    + (if u.path != "" then "/" + u.path else "")
    + "/" + u.name
  }

  /** Splits a host part at its first colon; without one the port stays as it was. */
  function SplitHost(s: string, port: u32): (string, u32) {
    var k := Find(s, ':');
    if k < |s| then (s[..k], ReadPort(s[k + 1..], port)) else (s, port)
  }

  /** Host before the first slash, name after the last, path between them. */
  function SplitAtSlashes(rest: string, port: u32): Uri
    requires FindLast(rest, '/') > 0
  {
    var first, last := Find(rest, '/'), FindLast(rest, '/');
    var (server, p) := SplitHost(rest[..first], port);
    Uri(server, p, if first + 1 == last then "" else rest[first + 1..last - 1], rest[last..])
  }

  function Strip(text: string): string {
    if SCHEME <= text then text[|SCHEME|..] else text
  }

  /** Fields that the text does not give keep the values they had. */
  function Parse(text: string, u: Uri): Uri {
    var rest := Strip(text);
    if FindLast(rest, '/') > 0 then SplitAtSlashes(rest, u.port)
    else if SCHEME <= text then
      var (server, port) := SplitHost(rest, u.port);
      u.(server := server, port := port)
    else
      u.(name := text)
  }

  function ParseUri(text: string): Uri { Parse(text, Uri("", DEFAULT_PORT, "", "")) }

  // ------------------------------------------------------------------
  // Round trip
  // ------------------------------------------------------------------

  lemma FindAt(a: string, b: string, c: char)
    requires c !in a
    ensures Find(a + [c] + b, c) == |a|
  {
    var s := a + [c] + b;
    assert s[|a|] == c;
    assert forall j :: 0 <= j < |a| ==> s[j] == a[j];
  }

  lemma FindNone(s: string, c: char)
    requires c !in s
    ensures Find(s, c) == |s|
  {
  }

  lemma {:induction false} FindLastIs(s: string, c: char, i: nat)
    requires 0 < i <= |s| && s[i - 1] == c && forall j :: i <= j < |s| ==> s[j] != c
    ensures FindLast(s, c) == i
  {
  }

  lemma {:induction false} FindLastAt(a: string, b: string, c: char)
    requires c !in b
    ensures FindLast(a + [c] + b, c) == |a| + 1
  {
    var s := a + [c] + b;
    assert s[|a|] == c;
    assert forall j :: |a| < j < |s| ==> s[j] == b[j - |a| - 1];
    FindLastIs(s, c, |a| + 1);
  }

  lemma {:induction false} DecimalRoundTrip(n: nat)
    ensures forall i :: 0 <= i < |Decimal(n)| ==> IsDigit(Decimal(n)[i])
    ensures NumberOf(Decimal(n)) == n
  {
    if n >= 10 {
      DecimalRoundTrip(n / 10);
      var d := Decimal(n);
      assert d[..|d| - 1] == Decimal(n / 10);
    } else {
      assert Decimal(n) == [Digit(n)];
      assert [Digit(n)][..0] == [];
    }
  }

  lemma ReadDecimal(n: u32, port: u32)
    ensures ReadPort(Decimal(n), port) == n
  {
    DecimalRoundTrip(n);
    var d := Decimal(n);
    assert Leading(d) == |d|;
    assert d[..|d|] == d;
  }

  /** The host part of a printed URI, without the scheme. */
  function Host(u: Uri): string {
    if u.server == "" then "" else u.server + if u.port > 0 then ":" + Decimal(u.port) else ""
  }

  /** Everything from the first separator after the host. */
  function Tail(u: Uri): string {
    (if u.path != "" then "/" + u.path else "") + "/" + u.name
  }

  lemma StripPrinted(u: Uri)
    ensures Strip(FullUri(u)) == Host(u) + Tail(u)
  {
    var rest, text := Host(u) + Tail(u), FullUri(u);
    if u.server == "" {
      assert text == rest;
      assert text[0] == '/' && SCHEME[0] == 'r';
    } else {
      assert text == SCHEME + rest;
    }
  }

  lemma SlashInTail(u: Uri)
    ensures FindLast(Host(u) + Tail(u), '/') > 0
  {
    var rest := Host(u) + Tail(u);
    assert rest[|rest| - |u.name| - 1] == '/';
  }

  /** Parsing a printed URI works on the host and what follows it. */
  lemma ParsePrinted(u: Uri)
    ensures FindLast(Host(u) + Tail(u), '/') > 0
    ensures ParseUri(FullUri(u)) == SplitAtSlashes(Host(u) + Tail(u), DEFAULT_PORT)
  {
    StripPrinted(u);
    SlashInTail(u);
  }

  ghost predicate RoundTrips(u: Uri) { ParseUri(FullUri(u)) == u }

  /** What the printer can express. */
  predicate Printable(u: Uri) {
    && '/' !in u.name && '/' !in u.server && ':' !in u.server
    && if u.server == "" then u.port == DEFAULT_PORT else u.port > 0
  }

  lemma HostHasNoSlash(u: Uri)
    requires '/' !in u.server
    ensures '/' !in Host(u)
  {
    DecimalRoundTrip(u.port);
  }

  /** What precedes the last separator. */
  function Front(u: Uri): string {
    Host(u) + if u.path != "" then "/" + u.path else ""
  }

  /** The separators of a printed URI are where the printer put them. */
  lemma FirstSeparator(u: Uri)
    requires '/' !in u.server
    ensures Find(Host(u) + Tail(u), '/') == |Host(u)|
  {
    var t := Tail(u);
    HostHasNoSlash(u);
    assert t[0] == '/';
    assert Host(u) + t == Host(u) + ['/'] + t[1..];
    FindAt(Host(u), t[1..], '/');
  }

  lemma LastSeparator(u: Uri)
    requires '/' !in u.name
    ensures Host(u) + Tail(u) == Front(u) + ['/'] + u.name
    ensures FindLast(Host(u) + Tail(u), '/') == |Front(u)| + 1
  {
    assert Host(u) + Tail(u) == Front(u) + ['/'] + u.name;
    FindLastAt(Front(u), u.name, '/');
  }

  /** Between the separators stand the host, the path and the name. */
  lemma Pieces(u: Uri)
    ensures var rest := Front(u) + ['/'] + u.name;
            && rest[..|Host(u)|] == Host(u) && rest[|Front(u)| + 1..] == u.name
            && (u.path == "" ==> |Front(u)| == |Host(u)|)
            && (u.path != "" ==> |Front(u)| > |Host(u)| && rest[|Host(u)| + 1..|Front(u)|] == u.path)
  {
    var rest := Front(u) + ['/'] + u.name;
    if u.path != "" {
      assert rest == Host(u) + ['/'] + u.path + ['/'] + u.name;
    }
  }

  lemma SplitPrintedHost(u: Uri)
    requires ':' !in u.server
    ensures SplitHost(Host(u), DEFAULT_PORT)
         == (u.server, if u.server != "" && u.port > 0 then u.port else DEFAULT_PORT)
  {
    if u.server != "" && u.port > 0 {
      var d := Decimal(u.port);
      assert Host(u) == u.server + [':'] + d;
      FindAt(u.server, d, ':');
      assert Host(u)[..|u.server|] == u.server;
      assert Host(u)[|u.server| + 1..] == d;
      ReadDecimal(u.port, DEFAULT_PORT);
    } else {
      assert Host(u) == u.server;
      FindNone(u.server, ':');
    }
  }

  lemma SplitIs(rest: string, port: u32, host: string, path: string, name: string, last: nat)
    requires FindLast(rest, '/') == last > 0 && Find(rest, '/') == |host| < last <= |rest|
    requires rest[..|host|] == host && rest[last..] == name
    requires path == if |host| + 1 == last then "" else rest[|host| + 1..last - 1]
    ensures SplitAtSlashes(rest, port) == Uri(SplitHost(host, port).0, SplitHost(host, port).1, path, name)
  {
  }

  /** What comes back from a printed URI without stray separators. */
  lemma ParsedIs(u: Uri)
    requires '/' !in u.name && '/' !in u.server && ':' !in u.server
    ensures ParseUri(FullUri(u))
         == Uri(u.server, if u.server != "" && u.port > 0 then u.port else DEFAULT_PORT, u.path, u.name)
  {
    hide Host, Tail, Front, Find, FindLast, SplitHost, SplitAtSlashes, ParseUri, FullUri;
    ParsePrinted(u);
    FirstSeparator(u);
    LastSeparator(u);
    Pieces(u);
    SplitIs(Host(u) + Tail(u), DEFAULT_PORT, Host(u), u.path, u.name, |Front(u)| + 1);
    SplitPrintedHost(u);
  }

  /** A parsed URI never has a slash in its name, nor a slash or colon in its server. */
  lemma SplitIsPlain(rest: string, port: u32)
    requires FindLast(rest, '/') > 0
    ensures var u := SplitAtSlashes(rest, port); '/' !in u.name && '/' !in u.server && ':' !in u.server
  {
  }

  /**
   * Printing and parsing are inverse exactly for the URIs whose name has no slash, whose
   * server has neither slash nor colon, and whose port is printed, or is the default when
   * there is no server. The relative path is arbitrary.
   */
  lemma RoundTripExactly(u: Uri)
    ensures RoundTrips(u) <==> Printable(u)
  {
    ParsePrinted(u);
    SplitIsPlain(Host(u) + Tail(u), DEFAULT_PORT);
    if '/' !in u.name && '/' !in u.server && ':' !in u.server {
      ParsedIs(u);
    }
  }

  // ------------------------------------------------------------------
  // Texts without a separator
  // ------------------------------------------------------------------

  lemma {:induction false} NoLast(s: string, c: char)
    requires c !in s
    ensures FindLast(s, c) == 0
  {
  }

  lemma SchemeHasSlash(text: string)
    ensures SCHEME <= text ==> '/' in text
  {
    if SCHEME <= text {
      assert SCHEME[5] == '/' && text[5] == SCHEME[5];
    }
  }

  /** A text without a slash is a name. */
  lemma NameAlone(text: string, u: Uri)
    requires '/' !in text
    ensures Parse(text, u) == u.(name := text)
  {
    SchemeHasSlash(text);
    NoLast(text, '/');
  }

  lemma StripScheme(rest: string)
    ensures Strip(SCHEME + rest) == rest && SCHEME <= SCHEME + rest
  {
  }

  /** A server alone: the port is taken from the text if it has one, and every other field stays. */
  lemma ServerAlone(server: string, port: u32, u: Uri)
    requires '/' !in server && ':' !in server
    ensures Parse(SCHEME + server, u) == u.(server := server)
    ensures Parse(SCHEME + (server + [':'] + Decimal(port)), u) == u.(server := server, port := port)
    ensures Parse(SCHEME + (server + [':'] + ""), u) == u.(server := server)
  {
    hide Strip, FindLast, Find, ReadPort;
    StripScheme(server);
    NoLast(server, '/');
    FindNone(server, ':');
    DecimalRoundTrip(port);
    ServerWithPort(server, Decimal(port), u);
    ReadDecimal(port, u.port);
    ServerWithPort(server, "", u);
    EmptyPort(u.port);
    hide Parse;
  }

  lemma EmptyPort(port: u32)
    ensures ReadPort("", port) == port
  {
  }

  lemma ServerWithPort(server: string, digits: string, u: Uri)
    requires '/' !in server && ':' !in server && '/' !in digits
    ensures Parse(SCHEME + (server + [':'] + digits), u) == u.(server := server, port := ReadPort(digits, u.port))
  {
    hide Strip, FindLast, Find, ReadPort;
    var rest := server + [':'] + digits;
    StripScheme(rest);
    NoLast(rest, '/');
    FindAt(server, digits, ':');
    assert rest[..|server|] == server && rest[|server| + 1..] == digits;
  }
}
