/**
 Authenticating a request: the address the limiter counts, the bearer credentials, and how they
 meet the limiter and the agent store.
 */
module Authentication {
  import opened Common
  import opened AgentStore
  import Limiter = RateLimiter

  const BEARER := "Bearer "

  /** The index of the last `c` in `s`, or -1. */
  function LastIndex(s: string, c: char): (k: int)
    ensures -1 <= k < |s|
    ensures k >= 0 ==> s[k] == c
    ensures forall i | k < i < |s| :: s[i] != c
  {
    if s == "" then -1 else if s[|s| - 1] == c then |s| - 1 else LastIndex(s[..|s| - 1], c)
  }

  /** The index of the first `c` in `s`, or -1. */
  function FirstIndex(s: string, c: char): (k: int)
    ensures -1 <= k < |s|
    ensures k >= 0 ==> s[k] == c && c !in s[..k]
    ensures forall i | 0 <= i < (if k == -1 then |s| else k) :: s[i] != c
  {
    if s == "" then -1
    else if s[0] == c then 0
    else
      var k := FirstIndex(s[1..], c);
      if k == -1 then -1 else k + 1
  }

  /** The address without its port. */
  function HostOf(address: string): string {
    var k := LastIndex(address, ':');
    if k == -1 then address else address[..k]
  }

  /** The agent name and secret in an authorization header. */
  function Credentials(header: string): Option<(string, string)> {
    if !(BEARER <= header) then None
    else
      var token := header[|BEARER|..];
      var k := FirstIndex(token, ':');
      if k == -1 then None else Some((token[..k], token[k + 1..]))
  }

  /** The agent a header proves itself to be. */
  function ProvenAgent(header: string, agents: Agents, hash: string -> string): Option<string> {
    var c := Credentials(header);
    if c.Some? && c.value.0 in agents && agents[c.value.0].tokenHash == hash(c.value.1) then Some(c.value.0) else None
  }

  /** A whole authentication when no other request runs between its critical sections. */
  method Authenticate(limiter: Limiter.Limiter, store: Store, hash: string -> string, address: string, header: string,
                      now: Time) returns (agent: Option<string>)
    modifies limiter
    ensures var before, ip := old(limiter.Abstract()), HostOf(address);
            var examined := Limiter.Examined(before, ip, now);
            if !Limiter.Admits(before, ip, now) then
              agent == None && limiter.Abstract() == examined
            else
              && agent == ProvenAgent(header, store.agents, hash)
              && limiter.Abstract() ==
                 if agent.Some? then Limiter.Forgotten(examined, {ip}) else Limiter.Penalized(examined, ip)
  {
    var ip := address;
    var k := LastIndex(address, ':');
    if k != -1 {
      ip := address[..k];
    }
    var admitted := limiter.Admit(ip, now);
    if !admitted {
      return None;
    }
    if !(BEARER <= header) {
      limiter.Fail(ip);
      return None;
    }
    var token := header[|BEARER|..];
    var colon := FirstIndex(token, ':');
    if colon == -1 {
      limiter.Fail(ip);
      return None;
    }
    var name, secret := token[..colon], token[colon + 1..];
    var registration := store.GetAgent(name);
    if registration.None? {
      limiter.Fail(ip);
      return None;
    }
    if registration.value.tokenHash != hash(secret) {
      limiter.Fail(ip);
      return None;
    }
    limiter.Succeed(ip);
    return Some(name);
  }

  /** An address without a port is the host itself. */
  lemma NoPortIsHost(host: string)
    requires ':' !in host
    ensures HostOf(host) == host
  {
  }

  /** Every port of a host counts as the same address, the colons of an IPv6 host included. */
  lemma PortIsIgnored(host: string, port: string)
    requires ':' !in port
    ensures HostOf(host + ":" + port) == host
  {
    var address := host + ":" + port;
    var k := LastIndex(address, ':');
    assert address[|host|] == ':';
    assert forall i | |host| < i < |address| :: address[i] == port[i - |host| - 1];
    assert k == |host|;
    assert address[..k] == host;
  }

  /** A header built from a colon-free name and any secret reads back as that name and secret. */
  lemma CredentialsRoundTrip(name: string, secret: string)
    requires ':' !in name
    ensures Credentials(BEARER + name + ":" + secret) == Some((name, secret))
  {
    var header := BEARER + name + ":" + secret;
    var token := header[|BEARER|..];
    assert header == BEARER + (name + ":" + secret) && token == name + ":" + secret;
    var k := FirstIndex(token, ':');
    assert token[|name|] == ':';
    assert forall i | 0 <= i < |name| :: token[i] == name[i];
    assert k == |name|;
    assert token[..k] == name && token[k + 1..] == secret;
  }

  /** The header carries this name, up to the first colon, and this secret. */
  predicate Carries(header: string, name: string, secret: string) {
    ':' !in name && header == "Bearer " + name + ":" + secret
  }

  /** What is read from a header is what it carries. */
  lemma CredentialsExactly(header: string, name: string, secret: string)
    ensures Credentials(header) == Some((name, secret)) <==> Carries(header, name, secret)
  {
    if Carries(header, name, secret) {
      CredentialsRoundTrip(name, secret);
    }
    if Credentials(header) == Some((name, secret)) {
      var token := header[|BEARER|..];
      assert header == BEARER + token;
      assert token == name + ":" + secret;
      assert BEARER + (name + ":" + secret) == BEARER + name + ":" + secret;
    }
  }

  /** A header proves an agent exactly if it carries a registered name with a secret of its token hash. */
  lemma ProvenExactly(header: string, agents: Agents, hash: string -> string, name: string)
    ensures ProvenAgent(header, agents, hash) == Some(name) <==>
              name in agents && exists secret :: Carries(header, name, secret) && hash(secret) == agents[name].tokenHash
  {
    forall n, secret ensures Credentials(header) == Some((n, secret)) <==> Carries(header, n, secret) {
      CredentialsExactly(header, n, secret);
    }
    if ProvenAgent(header, agents, hash) == Some(name) {
      var secret := Credentials(header).value.1;
      assert Credentials(header) == Some((name, secret));
    }
  }

  /** What a header field may consist of (section 5.5 of RFC 9110): no control characters but tabs. */
  predicate FieldText(s: string) {
    forall c | c in s :: c == '\t' || (c >= ' ' && c as int != 0x7F)
  }

  predicate Blank(c: char) {
    c == ' ' || c == '\t'
  }

  /** A header value as a handler may see it: blanks around it have been cut off. */
  predicate FieldValue(s: string) {
    FieldText(s) && (s != "" ==> !Blank(s[0]) && !Blank(s[|s| - 1]))
  }

  predicate EndsBlank(s: string) {
    s != "" && Blank(s[|s| - 1])
  }

  ghost predicate CanAuthenticate(name: string, agents: Agents, hash: string -> string) {
    exists header :: FieldValue(header) && ProvenAgent(header, agents, hash) == Some(name)
  }

  /** The token hash is that of a secret which a header can end with. */
  ghost predicate HasSecret(tokenHash: string, hash: string -> string) {
    exists secret :: hash(secret) == tokenHash && FieldText(secret) && !EndsBlank(secret)
  }

  lemma HeaderCarries(name: string, secret: string)
    requires FieldText(name) && FieldText(secret) && !EndsBlank(secret)
    ensures FieldValue(BEARER + name + ":" + secret)
  {
    var header := BEARER + name + ":" + secret;
    assert header[0] == 'B' && header[|header| - 1] == if secret == "" then ':' else secret[|secret| - 1];
    assert FieldText(BEARER) && FieldText(":");
  }

  lemma HeaderParts(header: string)
    requires FieldValue(header) && Credentials(header).Some?
    ensures var (name, secret) := Credentials(header).value;
            ':' !in name && FieldText(name) && FieldText(secret) && !EndsBlank(secret)
  {
    var token := header[|BEARER|..];
    var k := FirstIndex(token, ':');
    var secret := token[k + 1..];
    assert header == BEARER + token && token == token[..k] + [':'] + secret;
    assert forall c | c in token[..k] || c in secret :: c in token && c in header;
    assert secret != "" ==> secret[|secret| - 1] == header[|header| - 1];
  }

  /**
   Registration accepts any name, but an agent can ever authenticate only if its name has no colon and no
   control character but tabs, and its secret fits into a header too.
   */
  lemma WhoCanAuthenticate(name: string, agents: Agents, hash: string -> string)
    ensures CanAuthenticate(name, agents, hash) <==>
              name in agents && ':' !in name && FieldText(name) && HasSecret(agents[name].tokenHash, hash)
  {
    if name in agents && ':' !in name && FieldText(name) && HasSecret(agents[name].tokenHash, hash) {
      var secret :| hash(secret) == agents[name].tokenHash && FieldText(secret) && !EndsBlank(secret);
      CredentialsRoundTrip(name, secret);
      HeaderCarries(name, secret);
      assert ProvenAgent(BEARER + name + ":" + secret, agents, hash) == Some(name);
    }
    if CanAuthenticate(name, agents, hash) {
      var header :| FieldValue(header) && ProvenAgent(header, agents, hash) == Some(name);
      HeaderParts(header);
      assert hash(Credentials(header).value.1) == agents[name].tokenHash;
    }
  }
}
