/** The tunnel address notation of share/remote.go: parsing, printing, and why printing
    identifies a tunnel. */
module Remotes {
  import opened Wrappers
  import opened Strings

  const ZERO_HOST := "0.0.0.0"

  datatype Remote = Remote(
    localHost: string,
    localPort: string,
    remoteHost: string,
    remotePort: string,
    localPortRandom: bool,
    scheme: Option<string>,
    acl: Option<string>,
    idleTimeoutMinutes: int)
  {
    /** The remote end of the tunnel. */
    function Target(): string { remoteHost + ":" + remotePort }

    function AclSuffix(): string {
      if acl.None? then "" else "(acl:" + acl.value + ")"
    }

    function String(): string {
      Join([localHost, localPort, remoteHost, remotePort + AclSuffix()], ':')
    }

    predicate EqualACL(other: Option<string>) {
      if acl.Some? && other.Some? then acl.value == other.value
      else acl.None? && other.None?
    }

    predicate IsLocalSpecified() { localHost != "" && localPort != "" }

    /** The four address fields. */
    function Address(): (string, string, string, string) {
      (localHost, localPort, remoteHost, remotePort)
    }
  }

  const EMPTY := Remote("", "", "", "", false, None, None, 0)

  datatype DecodeError = InvalidRemote | MissingPorts | InvalidHost

  predicate IsPort(s: string) { s != "" && AllDigits(s) }

  /** Host names the URL parser accepts. It is unknown here, except that it lets the empty
      text and the wildcard address through. */
  predicate HostTest(isHost: string -> bool) { isHost("") && isHost(ZERO_HOST) }

  /** What one part, read right to left, does to the record under construction. */
  function TakePart(isHost: string -> bool, p: string, r: Remote): Result<Remote, DecodeError> {
    if IsPort(p) then
      Success(if r.remotePort == "" then r.(remotePort := p) else r.(localPort := p))
    else if r.remotePort == "" && r.localPort == "" then Failure(MissingPorts)
    else if !isHost(p) then Failure(InvalidHost)
    else Success(if r.remoteHost == "" then r.(remoteHost := p) else r.(localHost := p))
  }

  function TakeParts(isHost: string -> bool, parts: seq<string>, r: Remote): Result<Remote, DecodeError> {
    if parts == [] then Success(r)
    else
      var next := TakePart(isHost, parts[|parts| - 1], r);
      if next.Failure? then next else TakeParts(isHost, parts[..|parts| - 1], next.value)
  }

  function FillDefaults(r: Remote): Remote {
    var q := if r.localHost == "" && r.localPort != "" then r.(localHost := ZERO_HOST) else r;
    if q.remoteHost == "" then q.(remoteHost := ZERO_HOST) else q
  }

  function Decode(isHost: string -> bool, s: string): Result<Remote, DecodeError> {
    var parts := Split(s, ':');
    if |parts| >= 5 then Failure(InvalidRemote)
    else
      var r := TakeParts(isHost, parts, EMPTY);
      if r.Failure? then r else Success(FillDefaults(r.value))
  }

  method DecodeRemote(isHost: string -> bool, s: string) returns (res: Result<Remote, DecodeError>)
    ensures res == Decode(isHost, s)
  {
    var parts := Split(s, ':');
    if |parts| <= 0 || |parts| >= 5 {
      return Failure(InvalidRemote);
    }
    var r := EMPTY;
    var i := |parts|;
    assert parts[..i] == parts;
    while i > 0
      invariant 0 <= i <= |parts|
      invariant TakeParts(isHost, parts, EMPTY) == TakeParts(isHost, parts[..i], r)
    {
      i := i - 1;
      var p := parts[i];
      assert parts[..i + 1][..i] == parts[..i];
      if IsPort(p) {
        if r.remotePort == "" {
          r := r.(remotePort := p);
        } else {
          r := r.(localPort := p);
        }
        continue;
      }
      if r.remotePort == "" && r.localPort == "" {
        return Failure(MissingPorts);
      }
      if !isHost(p) {
        return Failure(InvalidHost);
      }
      if r.remoteHost == "" {
        r := r.(remoteHost := p);
      } else {
        r := r.(localHost := p);
      }
    }
    if r.localHost == "" && r.localPort != "" {
      r := r.(localHost := ZERO_HOST);
    }
    if r.remoteHost == "" {
      r := r.(remoteHost := ZERO_HOST);
    }
    return Success(r);
  }

  // ---- What the parser accepts ----

  /** Host texts that the parser can put in a record. */
  predicate IsHostPart(isHost: string -> bool, h: string) {
    !IsPort(h) && isHost(h) && ':' !in h
  }

  /** The records the parser can produce. */
  predicate Parsed(isHost: string -> bool, r: Remote) {
    && IsPort(r.remotePort)
    && (r.localPort == "" || IsPort(r.localPort))
    && r.remoteHost != "" && IsHostPart(isHost, r.remoteHost)
    && IsHostPart(isHost, r.localHost)
    && (r.localPort != "" ==> r.localHost != "")
    && r == EMPTY.(localHost := r.localHost, localPort := r.localPort,
                   remoteHost := r.remoteHost, remotePort := r.remotePort)
  }

  /** What holds of the record between two steps of the scan. */
  predicate Partial(isHost: string -> bool, r: Remote) {
    && (r.remotePort == "" || IsPort(r.remotePort))
    && (r.localPort == "" || IsPort(r.localPort))
    && (r.remotePort == "" ==> r == EMPTY)
    && IsHostPart(isHost, r.remoteHost) && IsHostPart(isHost, r.localHost)
    && r == EMPTY.(localHost := r.localHost, localPort := r.localPort,
                   remoteHost := r.remoteHost, remotePort := r.remotePort)
  }

  lemma {:induction false} ScanKeepsPartial(isHost: string -> bool, parts: seq<string>, r: Remote)
    requires isHost("") && Partial(isHost, r)
    requires forall i | 0 <= i < |parts| :: ':' !in parts[i]
    ensures var q := TakeParts(isHost, parts, r);
            q.Success? ==> Partial(isHost, q.value) && (parts != [] ==> q.value.remotePort != "")
  {
    if parts != [] {
      var next := TakePart(isHost, parts[|parts| - 1], r);
      if next.Success? {
        ScanKeepsPartial(isHost, parts[..|parts| - 1], next.value);
      }
    }
  }

  /** The scan succeeds exactly when the last part is a port and every other part is a port
      or a host. */
  lemma {:induction false} ScanAccepts(isHost: string -> bool, parts: seq<string>, r: Remote)
    requires r.remotePort == "" ==> r.localPort == ""
    ensures TakeParts(isHost, parts, r).Success? <==>
            (r.remotePort == "" && parts != [] ==> IsPort(parts[|parts| - 1])) &&
            forall i | 0 <= i < |parts| :: IsPort(parts[i]) || isHost(parts[i])
  {
    if parts != [] {
      var n := |parts| - 1;
      var next := TakePart(isHost, parts[n], r);
      if next.Success? {
        ScanAccepts(isHost, parts[..n], next.value);
        assert forall i | 0 <= i < n :: parts[..n][i] == parts[i];
      }
    }
  }

  /** Acceptance, read off the text: at most four parts, the last one a port, and every part
      that is not a port a host. */
  lemma DecodeAccepts(isHost: string -> bool, s: string)
    ensures Decode(isHost, s).Success? <==>
            var parts := Split(s, ':');
            |parts| <= 4 && IsPort(parts[|parts| - 1]) &&
            forall i | 0 <= i < |parts| :: IsPort(parts[i]) || isHost(parts[i])
  {
    ScanAccepts(isHost, Split(s, ':'), EMPTY);
  }

  lemma DecodeIsParsed(isHost: string -> bool, s: string)
    requires HostTest(isHost)
    ensures Decode(isHost, s).Success? ==> Parsed(isHost, Decode(isHost, s).value)
  {
    assert !IsDigit(ZERO_HOST[1]);
    ScanKeepsPartial(isHost, Split(s, ':'), EMPTY);
  }

  // ---- Which part lands in which field ----

  function Ports(parts: seq<string>): seq<string> {
    if parts == [] then []
    else (if IsPort(parts[0]) then [parts[0]] else []) + Ports(parts[1..])
  }

  function Hosts(parts: seq<string>): seq<string> {
    if parts == [] then []
    else (if IsPort(parts[0]) then [] else [parts[0]]) + Hosts(parts[1..])
  }

  /** Host parts up to the last one that is not empty. */
  function Named(hosts: seq<string>): seq<string> {
    if hosts == [] || hosts[|hosts| - 1] != "" then hosts else Named(hosts[..|hosts| - 1])
  }

  /** First element when there are at least two. */
  function FirstOfMany(xs: seq<string>): string {
    if |xs| > 1 then xs[0] else ""
  }

  function LastOrEmpty(xs: seq<string>): string {
    if xs == [] then "" else xs[|xs| - 1]
  }

  /** The record, read off the parts without a scan: among the ports the last is remote and
      the first, if another one, local; likewise among the hosts, once empty ones at the end
      are dropped. */
  function FromParts(parts: seq<string>): Remote {
    var ports, named := Ports(parts), Named(Hosts(parts));
    EMPTY.(localHost := FirstOfMany(named), localPort := FirstOfMany(ports),
           remoteHost := LastOrEmpty(named), remotePort := LastOrEmpty(ports))
  }

  lemma {:induction false} NamedPrepend(p: string, hosts: seq<string>)
    ensures Named([p] + hosts) ==
            if Named(hosts) != [] then [p] + Named(hosts) else if p == "" then [] else [p]
  {
    var all := [p] + hosts;
    if hosts == [] {
      assert all == [p] && [p][..0] == [];
    } else if hosts[|hosts| - 1] == "" {
      assert all[..|all| - 1] == [p] + hosts[..|hosts| - 1];
      NamedPrepend(p, hosts[..|hosts| - 1]);
    }
  }

  lemma PortsNonEmpty(parts: seq<string>)
    ensures forall i | 0 <= i < |Ports(parts)| :: IsPort(Ports(parts)[i])
  {}

  lemma {:induction false} NamedEndsNonEmpty(hosts: seq<string>)
    ensures Named(hosts) != [] ==> LastOrEmpty(Named(hosts)) != ""
  {
    if hosts != [] && hosts[|hosts| - 1] == "" {
      NamedEndsNonEmpty(hosts[..|hosts| - 1]);
    }
  }

  lemma TakePortExtends(isHost: string -> bool, p: string, back: seq<string>)
    requires IsPort(p)
    ensures TakePart(isHost, p, FromParts(back)) == Success(FromParts([p] + back))
  {
    var all := [p] + back;
    assert all[0] == p && all[1..] == back;
    PortsNonEmpty(back);
    assert Ports(all) == [p] + Ports(back) && Hosts(all) == Hosts(back);
  }

  lemma TakeHostExtends(isHost: string -> bool, p: string, back: seq<string>)
    requires !IsPort(p)
    ensures var next := TakePart(isHost, p, FromParts(back));
            next.Success? ==> next.value == FromParts([p] + back)
  {
    var all := [p] + back;
    assert all[0] == p && all[1..] == back;
    NamedPrepend(p, Hosts(back));
    NamedEndsNonEmpty(Hosts(back));
    assert Ports(all) == Ports(back) && Hosts(all) == [p] + Hosts(back);
  }

  lemma {:induction false} ScanReadsFields(isHost: string -> bool, front: seq<string>, back: seq<string>)
    ensures var q := TakeParts(isHost, front, FromParts(back));
            q.Success? ==> q.value == FromParts(front + back)
  {
    if front == [] {
      assert front + back == back;
    } else {
      var n := |front| - 1;
      var p := front[n];
      if IsPort(p) {
        TakePortExtends(isHost, p, back);
      } else {
        TakeHostExtends(isHost, p, back);
      }
      ScanReadsFields(isHost, front[..n], [p] + back);
      assert front[..n] + ([p] + back) == front + back;
    }
  }

  lemma {:induction false} ScanErrors(isHost: string -> bool, parts: seq<string>, r: Remote)
    requires r.remotePort != "" || r.localPort == ""
    ensures var q := TakeParts(isHost, parts, r);
            q.Failure? ==>
              q.error == if r.remotePort == "" && !IsPort(parts[|parts| - 1]) then MissingPorts else InvalidHost
  {
    if parts != [] {
      var next := TakePart(isHost, parts[|parts| - 1], r);
      if next.Success? {
        ScanErrors(isHost, parts[..|parts| - 1], next.value);
      }
    }
  }

  /** Why a text is refused: too many parts, or the last one no port, or else some part no host. */
  lemma DecodeErrors(isHost: string -> bool, s: string)
    ensures Decode(isHost, s).Failure? ==>
            var parts := Split(s, ':');
            Decode(isHost, s).error ==
            if |parts| > 4 then InvalidRemote else if !IsPort(parts[|parts| - 1]) then MissingPorts else InvalidHost
  {
    ScanErrors(isHost, Split(s, ':'), EMPTY);
  }

  /** Which part of an accepted text lands in which field, defaults aside. */
  lemma DecodeFields(isHost: string -> bool, s: string)
    ensures Decode(isHost, s).Success? ==>
            Decode(isHost, s).value == FillDefaults(FromParts(Split(s, ':')))
  {
    var parts := Split(s, ':');
    ScanReadsFields(isHost, parts, []);
    assert parts + [] == parts;
  }

  // ---- Round trip ----

  lemma SplitPrinted(r: Remote)
    requires ':' !in r.localHost && ':' !in r.localPort && ':' !in r.remoteHost && ':' !in r.remotePort
    requires r.acl.None?
    ensures Split(r.String(), ':') == [r.localHost, r.localPort, r.remoteHost, r.remotePort]
  {
    assert r.remotePort + r.AclSuffix() == r.remotePort;
    SplitJoin([r.localHost, r.localPort, r.remoteHost, r.remotePort], ':');
  }

  /** The printed text spelled out: local end, then remote end, then the ACL if there is one. */
  lemma StringText(r: Remote)
    ensures r.String() == r.localHost + ":" + r.localPort + ":" + r.Target() + r.AclSuffix()
    ensures r.Target() == r.remoteHost + ":" + r.remotePort
    ensures r.AclSuffix() == if r.acl == None then "" else "(acl:" + r.acl.value + ")"
    ensures r.String() ==
            r.localHost + ([':'] + (r.localPort + ([':'] + (r.remoteHost + ([':'] + (r.remotePort + r.AclSuffix()))))))
  {
    var last := r.remotePort + r.AclSuffix();
    assert Join([last], ':') == last;
    JoinCons(r.remoteHost, [last]);
    JoinCons(r.localPort, [r.remoteHost, last]);
    JoinCons(r.localHost, [r.localPort, r.remoteHost, last]);
    assert [r.remoteHost] + [last] == [r.remoteHost, last];
    assert [r.localPort] + [r.remoteHost, last] == [r.localPort, r.remoteHost, last];
    assert [r.localHost] + [r.localPort, r.remoteHost, last] == [r.localHost, r.localPort, r.remoteHost, last];
  }

  lemma JoinCons(p: string, parts: seq<string>)
    requires |parts| > 0
    ensures Join([p] + parts, ':') == p + ([':'] + Join(parts, ':'))
  {
    var all := [p] + parts;
    assert all[1..] == parts;
    JoinFirst(all, ':');
    Regroup(p, [':'], Join(parts, ':'));
  }

  lemma PortHasNoColon(p: string)
    requires AllDigits(p)
    ensures ':' !in p
  {}

  /** One step of the scan, seen from the front parts that remain. */
  lemma TakeLast(isHost: string -> bool, front: seq<string>, p: string, r: Remote)
    ensures TakeParts(isHost, front + [p], r) ==
            var next := TakePart(isHost, p, r);
            if next.Failure? then next else TakeParts(isHost, front, next.value)
  {
    assert (front + [p])[..|front|] == front;
  }

  /** Printing a parsed record and parsing the print gives the record back. */
  lemma DecodePrinted(isHost: string -> bool, r: Remote)
    requires HostTest(isHost) && Parsed(isHost, r)
    ensures Decode(isHost, r.String()) == Success(r)
  {
    PortHasNoColon(r.localPort);
    PortHasNoColon(r.remotePort);
    SplitPrinted(r);
    var r1 := EMPTY.(remotePort := r.remotePort);
    var r2 := r1.(remoteHost := r.remoteHost);
    var r3 := if r.localPort == "" then r2 else r2.(localPort := r.localPort);
    TakeLast(isHost, [r.localHost, r.localPort, r.remoteHost], r.remotePort, EMPTY);
    TakeLast(isHost, [r.localHost, r.localPort], r.remoteHost, r1);
    TakeLast(isHost, [r.localHost], r.localPort, r2);
    TakeLast(isHost, [], r.localHost, r3);
    assert [r.localHost] + [r.localPort] == [r.localHost, r.localPort];
    assert [r.localHost, r.localPort] + [r.remoteHost] == [r.localHost, r.localPort, r.remoteHost];
    assert [r.localHost, r.localPort, r.remoteHost] + [r.remotePort] ==
           [r.localHost, r.localPort, r.remoteHost, r.remotePort];
  }

  /** Normal form: whatever text the parser accepts, printing the record gives a text that
      parses to the same record. */
  lemma NormalForm(isHost: string -> bool, s: string)
    requires HostTest(isHost)
    ensures Decode(isHost, s).Success? ==>
            Decode(isHost, Decode(isHost, s).value.String()) == Decode(isHost, s)
  {
    DecodeIsParsed(isHost, s);
    if Decode(isHost, s).Success? {
      DecodePrinted(isHost, Decode(isHost, s).value);
    }
  }

  /** The range of the parser, exactly. */
  lemma ParserRange(isHost: string -> bool, r: Remote)
    requires HostTest(isHost)
    ensures (exists s :: Decode(isHost, s) == Success(r)) <==> Parsed(isHost, r)
  {
    if Parsed(isHost, r) {
      DecodePrinted(isHost, r);
    }
    forall s | Decode(isHost, s) == Success(r) ensures Parsed(isHost, r) {
      DecodeIsParsed(isHost, s);
    }
  }

  /** The four documented shorthands, with the values the code fills in. */
  lemma Shorthands(isHost: string -> bool, lport: string, rport: string, lhost: string, rhost: string)
    requires HostTest(isHost) && IsPort(lport) && IsPort(rport)
    requires lhost != "" && rhost != "" && IsHostPart(isHost, lhost) && IsHostPart(isHost, rhost)
    ensures Decode(isHost, rport) == Success(EMPTY.(remoteHost := "0.0.0.0", remotePort := rport))
    ensures Decode(isHost, rhost + ":" + rport) == Success(EMPTY.(remoteHost := rhost, remotePort := rport))
    ensures Decode(isHost, lport + ":" + rhost + ":" + rport) ==
            Success(EMPTY.(localHost := "0.0.0.0", localPort := lport, remoteHost := rhost, remotePort := rport))
    ensures Decode(isHost, lhost + ":" + lport + ":" + rhost + ":" + rport) ==
            Success(EMPTY.(localHost := lhost, localPort := lport, remoteHost := rhost, remotePort := rport))
  {
    ShorthandRemote(isHost, rport, rhost);
    ShorthandLocalPort(isHost, lport, rport, rhost);
    ShorthandFull(isHost, lport, rport, lhost, rhost);
  }

  lemma ShorthandFull(isHost: string -> bool, lport: string, rport: string, lhost: string, rhost: string)
    requires HostTest(isHost) && IsPort(lport) && IsPort(rport)
    requires lhost != "" && rhost != "" && IsHostPart(isHost, lhost) && IsHostPart(isHost, rhost)
    ensures Decode(isHost, lhost + ":" + lport + ":" + rhost + ":" + rport) ==
            Success(EMPTY.(localHost := lhost, localPort := lport, remoteHost := rhost, remotePort := rport))
  {
    var full := EMPTY.(localHost := lhost, localPort := lport, remoteHost := rhost, remotePort := rport);
    DecodePrinted(isHost, full);
    StringText(full);
    assert full.String() == lhost + ":" + lport + ":" + rhost + ":" + rport;
  }

  lemma ShorthandRemote(isHost: string -> bool, rport: string, rhost: string)
    requires HostTest(isHost) && IsPort(rport)
    requires rhost != "" && IsHostPart(isHost, rhost)
    ensures Decode(isHost, rport) == Success(EMPTY.(remoteHost := ZERO_HOST, remotePort := rport))
    ensures Decode(isHost, rhost + ":" + rport) == Success(EMPTY.(remoteHost := rhost, remotePort := rport))
  {
    PortHasNoColon(rport);
    SplitNone(rport, ':');
    SplitCons(rhost, rport, ':');
    assert rhost + ":" + rport == rhost + ([':'] + rport);
    var r1 := EMPTY.(remotePort := rport);
    TakeLast(isHost, [], rport, EMPTY);
    TakeLast(isHost, [rhost], rport, EMPTY);
    TakeLast(isHost, [], rhost, r1);
  }

  lemma ShorthandLocalPort(isHost: string -> bool, lport: string, rport: string, rhost: string)
    requires HostTest(isHost) && IsPort(lport) && IsPort(rport)
    requires rhost != "" && IsHostPart(isHost, rhost)
    ensures Decode(isHost, lport + ":" + rhost + ":" + rport) ==
            Success(EMPTY.(localHost := ZERO_HOST, localPort := lport, remoteHost := rhost, remotePort := rport))
  {
    PortHasNoColon(lport);
    PortHasNoColon(rport);
    var rest := rhost + ([':'] + rport);
    SplitNone(rport, ':');
    SplitCons(rhost, rport, ':');
    SplitCons(lport, rest, ':');
    var text := lport + ":" + rhost + ":" + rport;
    assert text == lport + ([':'] + rest);
    assert Split(text, ':') == [lport] + ([rhost] + [rport]) == [lport, rhost, rport];
    var r1 := EMPTY.(remotePort := rport);
    TakeLast(isHost, [lport, rhost], rport, EMPTY);
    TakeLast(isHost, [lport], rhost, r1);
    TakeLast(isHost, [], lport, r1.(remoteHost := rhost));
    assert [lport] + [rhost] == [lport, rhost] && [lport, rhost] + [rport] == [lport, rhost, rport];
  }

  /** A parsed remote has a local end exactly if the text names two ports or more. */
  lemma LocalEndExactly(isHost: string -> bool, s: string)
    requires HostTest(isHost) && Decode(isHost, s).Success?
    ensures Decode(isHost, s).value.IsLocalSpecified() <==> |Ports(Split(s, ':'))| > 1
  {
    DecodeFields(isHost, s);
    DecodeIsParsed(isHost, s);
    PortsNonEmpty(Split(s, ':'));
    var ports := Ports(Split(s, ':'));
    assert |ports| > 1 ==> IsPort(ports[0]);
  }

  // ---- Printing identifies a tunnel ----

  /** The address fields are free of the characters that separate them. */
  predicate WellFormed(r: Remote) {
    ':' !in r.localHost && ':' !in r.localPort && ':' !in r.remoteHost && AllDigits(r.remotePort)
  }

  lemma ParsedIsWellFormed(isHost: string -> bool, r: Remote, acl: Option<string>)
    requires Parsed(isHost, r)
    ensures WellFormed(r.(acl := acl))
  {
    PortHasNoColon(r.localPort);
  }

  /** A port followed by the optional ACL can be taken apart again. */
  lemma PortSuffixUnique(a: Remote, b: Remote)
    requires AllDigits(a.remotePort) && AllDigits(b.remotePort)
    requires a.remotePort + a.AclSuffix() == b.remotePort + b.AclSuffix()
    ensures a.remotePort == b.remotePort && a.acl == b.acl
  {
    SpanUnique(IsDigit, a.remotePort, a.AclSuffix(), b.remotePort, b.AclSuffix());
    if a.acl.Some? && b.acl.Some? {
      var t := a.AclSuffix();
      assert a.acl.value == t[5..|t| - 1];
      assert b.acl.value == t[5..|t| - 1];
    }
  }

  /** Two well-formed remotes print alike exactly when all four address fields and the ACL agree. */
  lemma StringInjective(a: Remote, b: Remote)
    requires WellFormed(a) && WellFormed(b)
    ensures a.String() == b.String() <==> a.Address() == b.Address() && a.acl == b.acl
  {
    if a.String() == b.String() {
      var ra, rb := a.remotePort + a.AclSuffix(), b.remotePort + b.AclSuffix();
      var ha, hb := a.remoteHost + ([':'] + ra), b.remoteHost + ([':'] + rb);
      var la, lb := a.localPort + ([':'] + ha), b.localPort + ([':'] + hb);
      StringText(a);
      StringText(b);
      FirstCutUnique(a.localHost, la, b.localHost, lb, ':');
      FirstCutUnique(a.localPort, ha, b.localPort, hb, ':');
      FirstCutUnique(a.remoteHost, ra, b.remoteHost, rb, ':');
      PortSuffixUnique(a, b);
    }
  }

  /** Texts the parser accepts print alike, under any ACLs, only if they parse alike. */
  lemma ParsedPrintsDiffer(isHost: string -> bool, s: string, t: string, a: Option<string>, b: Option<string>)
    requires HostTest(isHost)
    requires Decode(isHost, s).Success? && Decode(isHost, t).Success?
    ensures Decode(isHost, s).value.(acl := a).String() == Decode(isHost, t).value.(acl := b).String() <==>
            Decode(isHost, s) == Decode(isHost, t) && a == b
  {
    DecodeIsParsed(isHost, s);
    DecodeIsParsed(isHost, t);
    ParsedIsWellFormed(isHost, Decode(isHost, s).value, a);
    ParsedIsWellFormed(isHost, Decode(isHost, t).value, b);
    StringInjective(Decode(isHost, s).value.(acl := a), Decode(isHost, t).value.(acl := b));
  }
}
