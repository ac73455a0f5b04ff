/**
 * Start-up configuration: how the `--remote` and `--pipe` option values turn
 * into the host, port and pipe name the relay uses. Either option may be
 * absent (a C# `null`), modelled as `None`.
 */
module Config {
  import opened Options
  import opened IntParse

  const DefaultHost: string := "localhost"
  const DefaultPort: int := 3333
  const DefaultPipe: string := "windbg"

  /** The resolved configuration, fixed for the life of the process. */
  datatype Settings = Settings(host: string, port: int, pipe: string)

  /** `string.IsNullOrEmpty` */
  predicate IsNullOrEmpty(s: Option<string>) {
    s.None? || s.value == []
  }

  /** `s.LastIndexOf(c)`: the index of the last occurrence of `c`, or -1 when there is none. */
  function LastIndexOf(s: string, c: char): (r: int)
    ensures -1 <= r < |s|
    ensures r == -1 <==> c !in s
    ensures 0 <= r ==> s[r] == c && c !in s[r + 1..]
    decreases |s|
  {
    if s == [] then -1
    else if s[|s| - 1] == c then |s| - 1
    else
      var init := s[..|s| - 1];
      var r := LastIndexOf(init, c);
      assert s == init + [s[|s| - 1]];
      r
  }

  /**
   * The handler's resolution of host, port and pipe name: the host and port
   * come from `remote` alone, the pipe name from `name` alone.
   */
  function Resolve(remote: Option<string>, name: Option<string>): (r: Settings)
    ensures r.host != [] && r.pipe != []
    ensures InInt32(r.port)
  {
    var (host, port) := ResolveRemote(remote);
    Settings(host, port, if IsNullOrEmpty(name) then DefaultPipe else name.value)
  }

  function ResolveRemote(remote: Option<string>): (r: (string, int))
    ensures r.0 != [] && InInt32(r.1)
  {
    if IsNullOrEmpty(remote) then (DefaultHost, DefaultPort)
    else
      var s := remote.value;
      var colonIndex := LastIndexOf(s, ':');
      if colonIndex == -1 then (s, DefaultPort) else SplitAt(s, colonIndex)
  }

  /**
   * Host and port from a remote whose last colon is at `colonIndex`. The port
   * is `int.TryParse`'s out parameter, so a failed parse leaves it 0 rather
   * than the default.
   */
  function SplitAt(s: string, colonIndex: nat): (r: (string, int))
    requires colonIndex < |s|
    ensures r.0 != [] && InInt32(r.1)
  {
    var parsed := TryParseInt(s[colonIndex + 1..]);
    var port := parsed.GetOr(0);
    if parsed.None? then (s, port)
    else
      var host := s[..colonIndex];
      (if host == [] then DefaultHost else host, port)
  }

  /** In a text whose suffix has no colon, the colon before that suffix is the last one. */
  lemma LastColonBeforeSuffix(h: string, p: string)
    requires ':' !in p
    ensures LastIndexOf(h + ":" + p, ':') == |h|
  {
    var s := h + ":" + p;
    assert s[|h|] == ':';
    assert s[|h| + 1..] == p;
  }

  /** No remote at all, or an empty one, gives the default host and port. */
  lemma ResolveWithoutRemote(remote: Option<string>, name: Option<string>)
    requires IsNullOrEmpty(remote)
    ensures Resolve(remote, name).host == DefaultHost
    ensures Resolve(remote, name).port == DefaultPort
  {
  }

  /** A remote without a colon is all host; the parse is never attempted and the port stays 3333. */
  lemma ResolveWithoutColon(s: string, name: Option<string>)
    requires s != [] && ':' !in s
    ensures Resolve(Some(s), name).host == s
    ensures Resolve(Some(s), name).port == DefaultPort
  {
  }

  /**
   * When the text after the last colon parses, the host is everything before
   * that colon ("localhost" if that is empty) and the port is the parsed value.
   */
  lemma ResolveParsedPort(h: string, p: string, name: Option<string>)
    requires ':' !in p && TryParseInt(p).Some?
    ensures Resolve(Some(h + ":" + p), name).host == if h == [] then DefaultHost else h
    ensures Resolve(Some(h + ":" + p), name).port == TryParseInt(p).value
  {
    var s := h + ":" + p;
    LastColonBeforeSuffix(h, p);
    assert s[..|h|] == h && s[|h| + 1..] == p;
  }

  /**
   * When the text after the last colon does not parse, the whole remote is
   * the host and the port is 0, the value the failed parse wrote.
   */
  lemma ResolveUnparsedPort(h: string, p: string, name: Option<string>)
    requires ':' !in p && TryParseInt(p).None?
    ensures Resolve(Some(h + ":" + p), name).host == h + ":" + p
    ensures Resolve(Some(h + ":" + p), name).port == 0
  {
    var s := h + ":" + p;
    LastColonBeforeSuffix(h, p);
    assert s[|h| + 1..] == p;
  }

  /** The pipe name is the `--pipe` value unless that is absent or empty. */
  lemma ResolvePipeName(remote: Option<string>, name: Option<string>)
    ensures Resolve(remote, name).pipe == if IsNullOrEmpty(name) then DefaultPipe else name.value
  {
  }

  /** The host and port depend on the remote alone, and the pipe name on `--pipe` alone. */
  lemma ResolveIndependent(remote: Option<string>, remote': Option<string>, name: Option<string>, name': Option<string>)
    ensures Resolve(remote, name).host == Resolve(remote, name').host
    ensures Resolve(remote, name).port == Resolve(remote, name').port
    ensures Resolve(remote, name).pipe == Resolve(remote', name).pipe
  {
  }

  /** "a:b:80" splits at its last colon. */
  lemma ResolveSplitsAtLastColon()
    ensures Resolve(Some("a:b:80"), None) == Settings("a:b", 80, DefaultPipe)
  {
    assert "a:b:80" == "a:b" + ":" + ShowInt(80);
    ParseShowInt(80);
    ResolveParsedPort("a:b", ShowInt(80), None);
  }

  /** ":9999" keeps the default host but takes the port. */
  lemma ResolveEmptyHost()
    ensures Resolve(Some(":9999"), Some("test-pipe")) == Settings(DefaultHost, 9999, "test-pipe")
  {
    assert ":9999" == "" + ":" + ShowInt(9999);
    ParseShowInt(9999);
    ResolveParsedPort("", ShowInt(9999), Some("test-pipe"));
  }

  /** "myhost:abc" keeps the whole text as host, and the failed parse sets the port to 0. */
  lemma ResolveBadPortIsZero()
    ensures Resolve(Some("myhost:abc"), None) == Settings("myhost:abc", 0, DefaultPipe)
  {
    ParseRejectsForeign("abc", 0);
    assert "myhost:abc" == "myhost" + ":" + "abc";
    ResolveUnparsedPort("myhost", "abc", None);
  }

  /** Numeric text, an optional sign followed by digits, holds no colon. */
  lemma NumberHasNoColon(sign: string, d: string)
    requires IsSign(sign) && AllDigits(d)
    ensures ':' !in sign + d
  {
    var p := sign + d;
    forall i | 0 <= i < |p|
      ensures p[i] != ':'
    {
      if i >= |sign| {
        assert p[i] == d[i - |sign|];
      }
    }
  }

  /**
   * A port with a sign and digits whose value is past the 32-bit range fails
   * to parse, so the whole remote is the host and the port is 0.
   */
  lemma ResolveOverflowIsZero(h: string, sign: string, d: string, name: Option<string>)
    requires IsSign(sign) && d != [] && AllDigits(d)
    requires !InInt32(SignedValue(sign, d))
    ensures Resolve(Some(h + ":" + (sign + d)), name).host == h + ":" + (sign + d)
    ensures Resolve(Some(h + ":" + (sign + d)), name).port == 0
  {
    ParseAccepts("", sign, d, "");
    assert "" + sign + d + "" == sign + d;
    NumberHasNoColon(sign, d);
    ResolveUnparsedPort(h, sign + d, name);
  }
}
