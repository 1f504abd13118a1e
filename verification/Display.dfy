/** How the Weave displays rights and resources (crates/weave/src/capability.rs), what looks alike, and what reads back. */
module Display {
  import opened Outcomes
  import opened Capability

  type Show = Resource -> string

  function ShowRights(r: Rights): string {
    if !r.read && !r.write && !r.exec then "-"
    else (if r.read then "r" else "") + (if r.write then "w" else "") + (if r.exec then "x" else "")
  }

  lemma ShowRightsInjective(a: Rights, b: Rights)
    requires ShowRights(a) == ShowRights(b)
    ensures a == b
  {
    var s := ShowRights(a);
    assert 'r' in s <==> a.read;
    assert 'r' in s <==> b.read;
    assert 'w' in s <==> a.write;
    assert 'w' in s <==> b.write;
    assert 'x' in s <==> a.exec;
    assert 'x' in s <==> b.exec;
  }

  function Decimal(n: nat): (s: string)
    ensures s != "" && forall c <- s :: '0' <= c <= '9'
  {
    (if n < 10 then "" else Decimal(n / 10)) + ["0123456789"[n % 10]]
  }

  function ShowResource(r: Resource): string {
    match r
    case File(path) => "file:" + path
    case Net(host, port) => "net:" + host + ":" + Decimal(port)
    case Device(name) => "dev:" + name
    case Service(name, action) => "svc:" + name + "/" + action
  }

  lemma {:induction false} DecimalInjective(m: nat, n: nat)
    requires Decimal(m) == Decimal(n)
    ensures m == n
  {
    var s := Decimal(m);
    assert s[|s| - 1] == "0123456789"[m % 10] == "0123456789"[n % 10];
    assert m % 10 == n % 10;
    assert s[..|s| - 1] == (if m < 10 then "" else Decimal(m / 10)) == (if n < 10 then "" else Decimal(n / 10));
    if m >= 10 && n >= 10 {
      DecimalInjective(m / 10, n / 10);
    }
  }

  lemma CutAtColon(h: string, d: string, k: string, e: string)
    requires h + ":" + d == k + ":" + e && ':' !in d && ':' !in e
    ensures h == k && d == e
  {
    var s := h + ":" + d;
    ColonBound(h, d, k, e);
    ColonBound(k, e, h, d);
    assert h == s[..|h|] && k == s[..|k|] && d == s[|h| + 1..] && e == s[|k| + 1..];
  }

  lemma ColonBound(h: string, d: string, k: string, e: string)
    requires h + ":" + d == k + ":" + e && ':' !in d
    ensures |k| <= |h|
  {
    var s := h + ":" + d;
    assert s[|k|] == ':';
    assert forall i :: |h| < i < |s| ==> s[i] == d[i - |h| - 1] && s[i] in d;
  }

  /** The last colon of a host and a port is the one between them. */
  lemma NetInjective(h: string, m: nat, k: string, n: nat)
    requires h + ":" + Decimal(m) == k + ":" + Decimal(n)
    ensures h == k && m == n
  {
    hide Decimal;
    CutAtColon(h, Decimal(m), k, Decimal(n));
    DecimalInjective(m, n);
  }

  lemma CutPrefix(p: string, a: string, b: string)
    requires p + a == p + b
    ensures a == b
  {
    assert a == (p + a)[|p|..] && b == (p + b)[|p|..];
  }

  /** Two resources are displayed alike only if they are one, or services whose names and actions join alike. */
  lemma DisplayedAlike(a: Resource, b: Resource)
    ensures ShowResource(a) == ShowResource(b) <==>
      a == b || (a.Service? && b.Service? && a.name + "/" + a.action == b.name + "/" + b.action)
  {
    hide Decimal;
    var s, t := ShowResource(a), ShowResource(b);
    assert s[0] == (match a case File(_) => 'f' case Net(_, _) => 'n' case Device(_) => 'd' case Service(_, _) => 's');
    assert t[0] == (match b case File(_) => 'f' case Net(_, _) => 'n' case Device(_) => 'd' case Service(_, _) => 's');
    match (a, b) {
      case (File(p), File(q)) =>
        if s == t { CutPrefix("file:", p, q); }
      case (Net(h, m), Net(k, n)) =>
        assert s == "net:" + (h + ":" + Decimal(m)) && t == "net:" + (k + ":" + Decimal(n));
        if s == t {
          CutPrefix("net:", h + ":" + Decimal(m), k + ":" + Decimal(n));
          NetInjective(h, m, k, n);
        }
      case (Device(m), Device(n)) =>
        if s == t { CutPrefix("dev:", m, n); }
      case (Service(m, x), Service(n, y)) =>
        assert s == "svc:" + (m + "/" + x) && t == "svc:" + (n + "/" + y);
        if s == t { CutPrefix("svc:", m + "/" + x, n + "/" + y); }
      case _ =>
    }
  }

  // ---- reading back what is displayed

  /** Each right by its letter, in this order, and a dash for none. */
  lemma ShowRightsSays()
    ensures ShowRights(Rights(false, false, false)) == "-" && ShowRights(Rights(true, true, true)) == "rwx"
    ensures ShowRights(Rights(true, false, false)) == "r" && ShowRights(Rights(false, true, false)) == "w"
    ensures ShowRights(Rights(false, false, true)) == "x" && ShowRights(Rights(true, true, false)) == "rw"
    ensures ShowRights(Rights(true, false, true)) == "rx" && ShowRights(Rights(false, true, true)) == "wx"
  {
  }

  /** Letters may come in any order and number; a dash adds nothing. */
  function ParseRights(s: string): Option<Rights> {
    if s == "" then Some(Rights(false, false, false))
    else
      var n := |s| - 1;
      match ParseRights(s[..n])
      case None => None
      case Some(r) =>
        if s[n] == 'r' then Some(r.(read := true))
        else if s[n] == 'w' then Some(r.(write := true))
        else if s[n] == 'x' then Some(r.(exec := true))
        else if s[n] == '-' then Some(r)
        else None
  }

  predicate IsRightLetter(c: char) {
    c == 'r' || c == 'w' || c == 'x' || c == '-'
  }

  /** What a text of rights means: the letters in it, whatever their order, and nothing with another character. */
  lemma {:induction false} ParsedRightsAre(s: string)
    ensures ParseRights(s).Some? <==> forall c <- s :: IsRightLetter(c)
    ensures ParseRights(s).Some? ==>
      var r := ParseRights(s).value;
      (r.read <==> 'r' in s) && (r.write <==> 'w' in s) && (r.exec <==> 'x' in s)
  {
    if s != "" {
      var n := |s| - 1;
      var before := s[..n];
      ParsedRightsAre(before);
      assert s == before + [s[n]];
      assert s[n] in s && forall c <- before :: c in s;
      assert forall c <- s :: c in before || c == s[n];
    }
  }

  lemma RightsReadBack(r: Rights)
    ensures ParseRights(ShowRights(r)) == Some(r)
  {
    var s := ShowRights(r);
    ParsedRightsAre(s);
    hide ParseRights;
    assert 'r' in s <==> r.read;
    assert 'w' in s <==> r.write;
    assert 'x' in s <==> r.exec;
  }

  function FirstIndex(s: string, c: char): (i: Option<nat>)
    ensures i.Some? ==> i.value < |s| && s[i.value] == c && c !in s[..i.value]
    ensures i.None? ==> c !in s
  {
    if s == "" then None
    else if s[0] == c then Some(0)
    else
      match FirstIndex(s[1..], c)
      case None => None
      case Some(i) =>
        assert s[..i + 1] == [s[0]] + s[1..][..i];
        Some(i + 1)
  }

  function LastIndex(s: string, c: char): (i: Option<nat>)
    ensures i.Some? ==> i.value < |s| && s[i.value] == c && c !in s[i.value + 1..]
    ensures i.None? ==> c !in s
  {
    if s == "" then None
    else
      var n := |s| - 1;
      if s[n] == c then Some(n)
      else
        match LastIndex(s[..n], c)
        case None =>
          assert s == s[..n] + [s[n]];
          None
        case Some(i) =>
          assert s[i + 1..] == s[..n][i + 1..] + [s[n]];
          Some(i)
  }

  function ParseDecimal(s: string): Option<nat> {
    if s == "" then Some(0)
    else
      var n := |s| - 1;
      match ParseDecimal(s[..n])
      case None => None
      case Some(v) => if '0' <= s[n] <= '9' then Some(10 * v + (s[n] as int - '0' as int)) else None
  }

  /** A port as the standard library reads a 16-bit number: a leading plus sign and leading zeros are allowed. */
  function ParsePort(s: string): Option<nat> {
    var digits := if s != "" && s[0] == '+' then s[1..] else s;
    if digits == "" then None
    else
      match ParseDecimal(digits)
      case Some(v) => if v < 0x1_0000 then Some(v) else None
      case None => None
  }

  function ParseResource(s: string): Option<Resource> {
    if "file:" <= s then Some(File(s[5..]))
    else if "net:" <= s then
      var rest := s[4..];
      match LastIndex(rest, ':')
      case None => None
      case Some(i) =>
        match ParsePort(rest[i + 1..])
        case None => None
        case Some(port) => Some(Net(rest[..i], port))
    else if "dev:" <= s then Some(Device(s[4..]))
    else if "svc:" <= s then
      var rest := s[4..];
      match FirstIndex(rest, '/')
      case None => None
      case Some(i) => Some(Service(rest[..i], rest[i + 1..]))
    else None
  }

  lemma {:induction false} DecimalReadsBack(n: nat)
    ensures ParseDecimal(Decimal(n)) == Some(n)
  {
    var s := Decimal(n);
    assert s[..|s| - 1] == (if n < 10 then "" else Decimal(n / 10));
    assert s[|s| - 1] == "0123456789"[n % 10];
    assert forall d :: 0 <= d < 10 ==> "0123456789"[d] as int == '0' as int + d;
    if n >= 10 {
      DecimalReadsBack(n / 10);
    }
  }

  lemma PortReadsBack(port: nat)
    requires port < 0x1_0000
    ensures ParsePort(Decimal(port)) == Some(port)
  {
    DecimalReadsBack(port);
    hide Decimal, ParseDecimal;
    assert Decimal(port)[0] in Decimal(port);
  }

  /** A resource reads back from its display exactly unless it is a service with a slash in its name. */
  lemma ReadsBack(r: Resource)
    requires r.Net? ==> r.port < 0x1_0000
    ensures ParseResource(ShowResource(r)) == Some(r) <==> !(r.Service? && '/' in r.name)
  {
    hide Decimal, ParsePort, FirstIndex, LastIndex;
    match r
    case File(path) => assert ("file:" + path)[5..] == path;
    case Device(name) => assert ("dev:" + name)[4..] == name && ("dev:" + name)[0] == 'd';
    case Net(host, port) => NetReadsBack(host, port);
    case Service(name, action) => ServiceReadsBack(name, action);
  }

  lemma NetReadsBack(host: string, port: nat)
    requires port < 0x1_0000
    ensures ParseResource(ShowResource(Net(host, port))) == Some(Net(host, port))
  {
    hide Decimal, ParsePort, LastIndex;
    var s, rest := ShowResource(Net(host, port)), host + ":" + Decimal(port);
    assert s == "net:" + rest;
    assert s[4..] == rest && s[0] == 'n';
    PortReadsBack(port);
    LastColonIs(host, Decimal(port));
    assert rest[..|host|] == host && rest[|host| + 1..] == Decimal(port);
  }

  lemma ServiceReadsBack(name: string, action: string)
    ensures ParseResource(ShowResource(Service(name, action))) == Some(Service(name, action)) <==> '/' !in name
  {
    hide FirstIndex;
    var s, rest := ShowResource(Service(name, action)), name + "/" + action;
    assert s == "svc:" + rest;
    assert s[4..] == rest && s[0] == 's' && rest[|name|] == '/';
    assert rest[..|name|] == name && rest[|name| + 1..] == action;
    if '/' !in name {
      FirstSlashIs(name, action);
    }
  }

  /** What is read is what is displayed so, but for the ways to write a port, which fits 16 bits. */
  lemma ParsedShows(s: string, r: Resource)
    requires ParseResource(s) == Some(r)
    ensures !r.Net? ==> ShowResource(r) == s
    ensures r.Service? ==> '/' !in r.name
    ensures r.Net? ==> r.port <= 65535 && "net:" + r.host + ":" <= s && ParsePort(s[|r.host| + 5..]) == Some(r.port)
  {
    hide Decimal, ParsePort, FirstIndex, LastIndex;
    match r
    case File(path) => assert s == "file:" + s[5..];
    case Device(name) => assert s == "dev:" + s[4..];
    case Net(host, port) => ParsedNet(s);
    case Service(name, action) => ParsedService(s);
  }

  lemma ParsedNet(s: string)
    requires "net:" <= s && ParseResource(s).Some?
    ensures
      var r := ParseResource(s).value;
      r.Net? && r.port <= 65535 && "net:" + r.host + ":" <= s && ParsePort(s[|r.host| + 5..]) == Some(r.port)
  {
    hide ParseDecimal, LastIndex;
    assert s[0] == 'n';
    var rest := s[4..];
    var i := LastIndex(rest, ':').value;
    CutOut(rest, i, ':');
    assert rest[i + 1..] == s[i + 5..];
    hide ParsePort;
    BehindPrefix("net:", rest, rest[..i] + ":");
    assert s == "net:" + rest;
    assert "net:" + rest[..i] + ":" == "net:" + (rest[..i] + ":");
  }

  lemma BehindPrefix(p: string, s: string, t: string)
    requires t <= s
    ensures p + t <= p + s
  {
  }

  lemma CutOut(s: string, i: nat, c: char)
    requires i < |s| && s[i] == c
    ensures s == s[..i] + [c] + s[i + 1..]
  {
  }

  lemma ParsedService(s: string)
    requires "svc:" <= s && ParseResource(s).Some?
    ensures
      var r := ParseResource(s).value;
      r.Service? && '/' !in r.name && s == "svc:" + r.name + "/" + r.action
  {
    hide FirstIndex;
    assert s[0] == 's';
    var rest := s[4..];
    var i := FirstIndex(rest, '/').value;
    CutOut(rest, i, '/');
    assert s == "svc:" + rest;
    assert "svc:" + (rest[..i] + "/" + rest[i + 1..]) == "svc:" + rest[..i] + "/" + rest[i + 1..];
  }

  lemma {:induction false} LastIndexIs(s: string, c: char, k: nat)
    requires k < |s| && s[k] == c && forall j :: k < j < |s| ==> s[j] != c
    ensures LastIndex(s, c) == Some(k)
  {
    if k < |s| - 1 {
      LastIndexIs(s[..|s| - 1], c, k);
    }
  }

  lemma {:induction false} FirstIndexIs(s: string, c: char, k: nat)
    requires k < |s| && s[k] == c && forall j :: 0 <= j < k ==> s[j] != c
    ensures FirstIndex(s, c) == Some(k)
  {
    if k > 0 {
      FirstIndexIs(s[1..], c, k - 1);
    }
  }

  lemma LastColonIs(a: string, b: string)
    requires ':' !in b
    ensures LastIndex(a + ":" + b, ':') == Some(|a|)
  {
    hide LastIndex;
    var front := a + ":";
    assert front[|a|] == ':';
    BehindIs(front, b, ':');
    LastIndexIs(front + b, ':', |a|);
  }

  lemma BehindIs(a: string, b: string, c: char)
    requires c !in b
    ensures forall i :: |a| <= i < |a + b| ==> (a + b)[i] != c
  {
    forall i | |a| <= i < |a + b|
      ensures (a + b)[i] != c
    {
      assert (a + b)[i] == b[i - |a|];
    }
  }

  lemma FirstSlashIs(a: string, b: string)
    requires '/' !in a
    ensures FirstIndex(a + "/" + b, '/') == Some(|a|)
  {
    hide FirstIndex;
    var s := a + "/" + b;
    forall i | 0 <= i < |a|
      ensures s[i] != '/'
    {
      assert s[i] == a[i];
    }
    FirstIndexIs(s, '/', |a|);
  }
}
