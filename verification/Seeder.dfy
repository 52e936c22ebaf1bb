/** Normalising the seeder's address (the end of ConfigFileAndDefaultsToKubicInitConfig in pkg/config/config.go).
    Only the way net/url finds the host is modelled; which addresses it rejects is left open. */
module Seeder {
  import opened Wrappers
  import opened Lists

  const DEFAULT_API_SERVER_PORT := "6443"

  predicate StartsWith(s: string, prefix: string) {
    prefix <= s
  }

  /** The text before the first c, or all of it. */
  function Before(s: string, c: char): (r: string)
    ensures r <= s && c !in r
    ensures c in s ==> |r| < |s| && s[|r|] == c
  {
    if s == "" || s[0] == c then "" else [s[0]] + Before(s[1..], c)
  }

  /** The text after the last c, or all of it. */
  function AfterLast(s: string, c: char): string {
    if c !in s then s else AfterLast(s[|Before(s, c)| + 1..], c)
  }

  predicate Letter(c: char) { 'a' <= c <= 'z' || 'A' <= c <= 'Z' }

  predicate Digit(c: char) { '0' <= c <= '9' }

  /** The length of the scheme, if the text has one: letters, digits, '+', '-' and '.', a letter first, up to a
      colon. */
  function SchemeLength(s: string, from: nat): Option<nat>
    requires from <= |s|
    decreases |s| - from
  {
    if from == |s| then None
    else if s[from] == ':' then (if from == 0 then None else Some(from))
    else if Letter(s[from]) || (from > 0 && (Digit(s[from]) || s[from] in "+-.")) then SchemeLength(s, from + 1)
    else None
  }

  /** What url.Parse leaves once the fragment, the scheme and the query are cut off, and whether there was a scheme. */
  function RestOf(url: string): (bool, string) {
    var u := Before(url, '#');
    var n := SchemeLength(u, 0);
    if n.Some? && n.value < |u| then (true, Before(u[n.value + 1..], '?')) else (false, Before(u, '?'))
  }

  /** The authority follows "//" and ends before the path; user information is dropped. */
  function HostIn(hasScheme: bool, rest: string): string {
    if StartsWith(rest, "//") && (hasScheme || !StartsWith(rest, "///"))
    then AfterLast(Before(rest[2..], '/'), '@')
    else ""
  }

  /** The Host field of url.Parse's result. */
  function HostOf(url: string): string {
    HostIn(RestOf(url).0, RestOf(url).1)
  }

  function TrimBracket(s: string): string {
    if StartsWith(s, "[") then s[1..] else s
  }

  /** URL.Hostname: without the port, and without the brackets of an IPv6 address. */
  function Hostname(host: string): string {
    if ':' !in host then host
    else if ']' in host then TrimBracket(Before(host, ']'))
    else Before(host, ':')
  }

  /** URL.Port */
  function Port(host: string): string {
    if ':' !in host then ""
    else if ']' in host then AfterBracket(host)
    else host[|Before(host, ':')| + 1..]
  }

  /** What follows the first "]:", if anything. */
  function AfterBracket(s: string): string {
    if |s| < 2 then "" else if s[..2] == "]:" then s[2..] else AfterBracket(s[1..])
  }

  /** "https://" followed by the address. */
  function Https(address: string): string {
    "https" + ":" + ("//" + address)
  }

  function WithScheme(seeder: string): string {
    if StartsWith(seeder, "http") then seeder else Https(seeder)
  }

  function HostAndPort(host: string): string {
    Hostname(host) + ":" + (if Port(host) == "" then DEFAULT_API_SERVER_PORT else Port(host))
  }

  function Normalize(seeder: string): string {
    HostAndPort(HostOf(WithScheme(seeder)))
  }

  /** The host names of section 3.2.2 of RFC 3986 that occur in practice: letters, digits, hyphens and dots. */
  predicate PlainHost(h: string) {
    h != "" && forall i :: 0 <= i < |h| ==> Letter(h[i]) || Digit(h[i]) || h[i] == '-' || h[i] == '.'
  }

  predicate PlainPort(p: string) {
    p != "" && forall i :: 0 <= i < |p| ==> Digit(p[i])
  }

  lemma NeverEmpty(seeder: string)
    ensures Normalize(seeder) != "" && ':' in Normalize(seeder)
  {
    var host := HostOf(WithScheme(seeder));
    assert Normalize(seeder)[|Hostname(host)|] == ':';
  }

  lemma {:induction false} BeforeIs(a: string, c: char, b: string)
    requires c !in a
    ensures Before(a + [c] + b, c) == a
    ensures Before(a, c) == a
  {
    if a != "" {
      assert (a + [c] + b)[1..] == a[1..] + [c] + b;
      BeforeIs(a[1..], c, b);
    }
  }

  lemma {:induction false} SchemeIs(s: string, from: nat, end: nat)
    requires from <= end && end < |s| && s[end] == ':' && end > 0
    requires forall i :: from <= i < end ==> Letter(s[i]) || (i > 0 && (Digit(s[i]) || s[i] in "+-."))
    ensures SchemeLength(s, from) == Some(end)
    decreases end - from
  {
    if from < end {
      SchemeIs(s, from + 1, end);
    }
  }

  lemma {:induction false} NoScheme(s: string, from: nat)
    requires from <= |s| && ':' !in s
    ensures SchemeLength(s, from) == None
    decreases |s| - from
  {
    if from < |s| {
      NoScheme(s, from + 1);
    }
  }

  predicate NoDelimiters(s: string) {
    '#' !in s && '?' !in s && '/' !in s && '@' !in s
  }

  /** With a scheme in front, the address is found whatever the name is. */
  lemma AddressAfterScheme(address: string)
    requires NoDelimiters(address)
    ensures HostOf(Https(address)) == address
  {
    RestAfterScheme("https", "//" + address);
    AddressIsHost(address);
  }

  lemma AddressIsHost(address: string)
    requires NoDelimiters(address)
    ensures HostIn(true, "//" + address) == address
  {
    assert ("//" + address)[2..] == address;
    BeforeIs(address, '/', "");
  }

  lemma RestAfterScheme(h: string, rest: string)
    requires PlainHost(h) && Letter(h[0]) && '#' !in rest && '?' !in rest
    ensures RestOf(h + ":" + rest) == (true, rest)
  {
    SchemeIsName(h, rest);
    NoMoreHash(h + ":", rest);
    assert (h + ":" + rest)[|h| + 1..] == rest;
    BeforeIs(rest, '?', "");
  }

  lemma NoMoreHash(a: string, b: string)
    requires '#' !in a && '#' !in b
    ensures Before(a + b, '#') == a + b
  {
    BeforeIs(a + b, '#', "");
  }

  lemma SchemeIsName(h: string, rest: string)
    requires PlainHost(h) && Letter(h[0])
    ensures SchemeLength(h + ":" + rest, 0) == Some(|h|)
  {
    var s := h + ":" + rest;
    assert s[|h|] == ':';
    forall i | 0 <= i < |h| ensures Letter(s[i]) || (i > 0 && (Digit(s[i]) || s[i] in "+-.")) {
      assert s[i] == h[i];
      assert '-' == "+-."[1] && '.' == "+-."[2];
    }
    SchemeIs(s, 0, |h|);
  }

  lemma PartsWithPort(h: string, p: string)
    requires PlainHost(h) && PlainPort(p)
    ensures Hostname(h + ":" + p) == h && Port(h + ":" + p) == p
  {
    assert ':' !in h && ']' !in h && ']' !in p;
    BeforeIs(h, ':', p);
    assert (h + [':'] + p)[|h| + 1..] == p;
    assert (h + ":" + p)[|h|] == ':';
  }

  lemma PartsWithoutPort(h: string)
    requires PlainHost(h)
    ensures Hostname(h) == h && Port(h) == ""
  {
    assert ':' !in h && ']' !in h;
  }

  lemma NoDelimitersIn(h: string, p: string)
    requires PlainHost(h) && PlainPort(p)
    ensures NoDelimiters(h + ":" + p) && NoDelimiters(h)
  {
  }

  /** Without "//" behind the scheme, url.Parse finds no host. */
  lemma OpaqueHasNoHost(h: string, p: string)
    requires PlainHost(h) && PlainPort(p) && Letter(h[0])
    ensures HostOf(h + ":" + p) == ""
  {
    RestAfterScheme(h, p);
    assert p[0] != '/';
  }

  lemma BareNameHasNoHost(h: string)
    requires PlainHost(h)
    ensures HostOf(h) == ""
  {
    assert '#' !in h && '?' !in h && ':' !in h;
    BeforeIs(h, '#', "");
    NoScheme(h, 0);
    BeforeIs(h, '?', "");
    assert h[0] != '/';
  }

  /** A host name that starts with "http" is taken for a URL and lost. */
  lemma HTTPNamesAreLost(h: string, p: string)
    requires PlainHost(h) && PlainPort(p) && StartsWith(h, "http")
    ensures Normalize(h + ":" + p) == ":6443"
    ensures Normalize(h) == ":6443"
  {
    assert h[0] == "http"[0];
    assert StartsWith(h + ":" + p, "http");
    OpaqueHasNoHost(h, p);
    BareNameHasNoHost(h);
  }

  lemma OtherNamesAreKept(h: string, p: string)
    requires PlainHost(h) && PlainPort(p) && !StartsWith(h, "http")
    ensures Normalize(h + ":" + p) == h + ":" + p
    ensures Normalize(h) == h + ":" + "6443"
  {
    PartsWithPort(h, p);
    PartsWithoutPort(h);
    NoDelimitersIn(h, p);
    NoPrefixGained(h, p);
    NormalizeAddress(h + ":" + p);
    NormalizeAddress(h);
  }

  lemma NormalizeAddress(address: string)
    requires NoDelimiters(address) && !StartsWith(address, "http")
    ensures Normalize(address) == HostAndPort(address)
  {
    AddressAfterScheme(address);
  }

  lemma NoPrefixGained(h: string, p: string)
    requires !StartsWith(h, "http")
    ensures !StartsWith(h + ":" + p, "http")
  {
    var hp := h + ":" + p;
    assert hp[|h|] == ':';
    assert forall i :: 0 <= i < |h| ==> hp[i] == h[i];
  }

  /** Host and port survive normalisation exactly when the name does not start with "http". */
  lemma PlainAddressIsKept(h: string, p: string)
    requires PlainHost(h) && PlainPort(p)
    ensures Normalize(h + ":" + p) == h + ":" + p <==> !StartsWith(h, "http")
    ensures Normalize(h) == h + ":" + "6443" <==> !StartsWith(h, "http")
  {
    if StartsWith(h, "http") {
      HTTPNamesAreLost(h, p);
      assert |":" + DEFAULT_API_SERVER_PORT| < |h + ":" + DEFAULT_API_SERVER_PORT|;
      assert (":" + DEFAULT_API_SERVER_PORT)[0] != (h + ":" + p)[0];
    } else {
      OtherNamesAreKept(h, p);
    }
  }

  /** With the scheme written out, every plain address is kept. */
  lemma SchemeKeepsAddress(h: string, p: string)
    requires PlainHost(h) && PlainPort(p)
    ensures Normalize(Https(h + ":" + p)) == h + ":" + p
  {
    PartsWithPort(h, p);
    NoDelimitersIn(h, p);
    NormalizeURL(h + ":" + p);
  }

  lemma NormalizeURL(address: string)
    requires NoDelimiters(address)
    ensures Normalize(Https(address)) == HostAndPort(address)
  {
    AddressAfterScheme(address);
    assert "http" <= "https" <= Https(address);
  }

  // Whole URLs.

  /** What may follow the address in a URL: a path, a query or a fragment, or nothing. */
  predicate IsTail(t: string) {
    t == "" || t[0] == '/' || t[0] == '?' || t[0] == '#'
  }

  lemma {:induction false} BeforeOfConcat(a: string, b: string, c: char)
    requires c !in a
    ensures Before(a + b, c) == a + Before(b, c)
  {
    if a == "" {
      assert a + b == b;
    } else {
      assert (a + b)[1..] == a[1..] + b;
      BeforeOfConcat(a[1..], b, c);
    }
  }

  /** Cutting at a delimiter leaves a tail. */
  lemma TailBefore(t: string, c: char)
    requires IsTail(t)
    ensures IsTail(Before(t, c))
    ensures t != "" && t[0] == c ==> Before(t, c) == ""
    ensures c !in Before(t, c)
  {
  }

  predicate NoDelimitersButAt(s: string) {
    '#' !in s && '?' !in s && '/' !in s
  }

  lemma RestUpToFragment(url: string, rest: string)
    requires Before(url, '#') == "https" + ":" + rest
    ensures RestOf(url) == (true, Before(rest, '?'))
  {
    SchemeIsName("https", rest);
    assert ("https" + ":" + rest)[6..] == rest;
  }

  lemma URLUpToFragment(start: string, tail: string)
    requires '#' !in start
    ensures Before("https" + ":" + (start + tail), '#') == "https" + ":" + (start + Before(tail, '#'))
  {
    var scheme := "https" + ":";
    Associate(scheme, start, tail);
    Associate(scheme, start, Before(tail, '#'));
    assert '#' !in scheme;
    BeforeOfConcat(scheme + start, tail, '#');
  }

  /** After the scheme everything up to the path, the query and the fragment is looked at. */
  lemma RestOfURL(authority: string, tail: string)
    requires NoDelimitersButAt(authority) && IsTail(tail)
    ensures RestOf("https" + ":" + ("//" + authority + tail)) ==
              (true, "//" + authority + Before(Before(tail, '#'), '?'))
  {
    var first := Before(tail, '#');
    URLUpToFragment("//" + authority, tail);
    RestUpToFragment("https" + ":" + ("//" + authority + tail), "//" + authority + first);
    BeforeOfConcat("//" + authority, first, '?');
  }

  lemma HostOfRest(user: string, address: string, tail: string)
    requires NoDelimiters(user) && NoDelimiters(address) && IsTail(tail) && '#' !in tail && '?' !in tail
    ensures HostIn(true, "//" + (user + "@" + address) + tail) == address
    ensures HostIn(true, "//" + address + tail) == address
  {
    HostUpToPath(user + "@" + address, tail);
    HostUpToPath(address, tail);
    BeforeIs(user, '@', address);
    assert user + ['@'] + address == user + "@" + address;
    assert (user + "@" + address)[|user| + 1..] == address;
    assert (user + "@" + address)[|user|] == '@';
  }

  lemma HostUpToPath(authority: string, tail: string)
    requires '/' !in authority && IsTail(tail) && '#' !in tail && '?' !in tail
    ensures HostIn(true, "//" + authority + tail) == AfterLast(authority, '@')
  {
    assert ("//" + authority + tail)[2..] == authority + tail;
    BeforeOfConcat(authority, tail, '/');
    TailBefore(tail, '/');
    assert Before(tail, '/') == "";
    assert authority + "" == authority;
  }

  /** In a URL with whatever user, path, query and fragment, a plain address is found. */
  lemma URLKeepsAddress(user: Option<string>, h: string, p: string, tail: string)
    requires PlainHost(h) && PlainPort(p) && IsTail(tail) && (user.Some? ==> NoDelimiters(user.value))
    ensures var authority := (if user.Some? then user.value + "@" else "") + (h + ":" + p);
            Normalize("https" + ":" + ("//" + authority + tail)) == h + ":" + p
  {
    var authority := (if user.Some? then user.value + "@" else "") + (h + ":" + p);
    NoDelimitersIn(h, p);
    URLHasHost(user, h + ":" + p, tail);
    PartsWithPort(h, p);
    assert "http" <= "https" <= "https" + ":" + ("//" + authority + tail);
  }

  lemma URLHasHost(user: Option<string>, address: string, tail: string)
    requires NoDelimiters(address) && IsTail(tail) && (user.Some? ==> NoDelimiters(user.value))
    ensures var authority := (if user.Some? then user.value + "@" else "") + address;
            HostOf("https" + ":" + ("//" + authority + tail)) == address
  {
    var authority := (if user.Some? then user.value + "@" else "") + address;
    var last := Before(Before(tail, '#'), '?');
    RestOfURL(authority, tail);
    TailBefore(tail, '#');
    TailBefore(Before(tail, '#'), '?');
    HostOfRest(if user.Some? then user.value else "", address, last);
    assert user.None? ==> authority == address;
    assert user.Some? ==> authority == user.value + "@" + address;
  }

  // IPv6 addresses.

  /** Hexadecimal digits and colons, and a colon at least. */
  predicate IPv6(h: string) {
    ':' in h && forall c :: c in h ==> c == ':' || Digit(c) || 'a' <= c <= 'f' || 'A' <= c <= 'F'
  }

  lemma BracketedParts(h: string, p: string)
    requires IPv6(h) && PlainPort(p)
    ensures Hostname("[" + h + "]:" + p) == h && Port("[" + h + "]:" + p) == p
  {
    var host := "[" + h + "]:" + p;
    assert host[|h| + 2] == ':';
    assert host[|h| + 1] == ']';
    assert "[" + h + [']'] + (":" + p) == host;
    BeforeIs("[" + h, ']', ":" + p);
    assert ("[" + h)[1..] == h;
    assert "[" + h + "]:" + p == ("[" + h) + "]:" + p;
    BracketAt("[" + h, p);
  }

  lemma {:induction false} BracketAt(a: string, p: string)
    requires ']' !in a
    ensures AfterBracket(a + "]:" + p) == p
  {
    var s := a + "]:" + p;
    if a == "" {
      assert s[..2] == "]:" && s[2..] == p;
    } else {
      assert s[0] == a[0] && s[1..] == a[1..] + "]:" + p;
      BracketAt(a[1..], p);
    }
  }

  /** An IPv6 address loses its brackets, so that its own colons and the one before the port can no longer be told
      apart: normalising once more gives what comes before the first colon, and the rest as a port. */
  lemma BracketsAreLost(h: string, p: string)
    requires IPv6(h) && PlainPort(p)
    ensures Normalize("[" + h + "]:" + p) == h + ":" + p
    ensures Hostname(h + ":" + p) == Before(h, ':') && |Before(h, ':')| < |h|
  {
    NoDelimitersInBrackets(h, p);
    NormalizeAddress("[" + h + "]:" + p);
    BracketedParts(h, p);
    HostOfBare(h, p);
  }

  lemma NoDelimitersInBrackets(h: string, p: string)
    requires IPv6(h) && PlainPort(p)
    ensures var address := "[" + h + "]:" + p; NoDelimiters(address) && !StartsWith(address, "http")
  {
    var address := "[" + h + "]:" + p;
    assert address[0] == '[';
    assert forall c :: c in p ==> Digit(c);
  }

  lemma HostOfBare(h: string, p: string)
    requires IPv6(h) && PlainPort(p)
    ensures Hostname(h + ":" + p) == Before(h, ':')
  {
    assert forall c :: c in p ==> Digit(c);
    BeforeOfPrefix(h, ":" + p, ':');
    assert h + ":" + p == h + (":" + p);
    assert (h + ":" + p)[|h|] == ':';
  }

  lemma {:induction false} BeforeOfPrefix(a: string, b: string, c: char)
    requires c in a
    ensures Before(a + b, c) == Before(a, c)
  {
    if a[0] != c {
      assert (a + b)[1..] == a[1..] + b;
      BeforeOfPrefix(a[1..], b, c);
    }
  }

  /** Normalising twice is normalising once, for every address with a plain host name and port, exactly when the host
      name does not start with "http". */
  lemma NormalizeIsIdempotent(seeder: string)
    requires var host := HostOf(WithScheme(seeder));
             PlainHost(Hostname(host)) && (Port(host) == "" || PlainPort(Port(host)))
    ensures Normalize(Normalize(seeder)) == Normalize(seeder)
       <==> !StartsWith(Hostname(HostOf(WithScheme(seeder))), "http")
  {
    HostAndPortIsKept(HostOf(WithScheme(seeder)));
  }

  lemma HostAndPortIsKept(host: string)
    requires PlainHost(Hostname(host)) && (Port(host) == "" || PlainPort(Port(host)))
    ensures Normalize(HostAndPort(host)) == HostAndPort(host) <==> !StartsWith(Hostname(host), "http")
  {
    PlainAddressIsKept(Hostname(host), if Port(host) == "" then DEFAULT_API_SERVER_PORT else Port(host));
  }
}
