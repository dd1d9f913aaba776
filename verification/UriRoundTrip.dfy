/** Printing a URI and scanning it gives its components back. */
module UriRoundTrip {
  import opened Options
  import opened Bytes
  import opened UriModel

  /** A URI by its components; the path is without its leading slash. */
  datatype Uri = Uri(scheme: string, userinfo: Option<(string, string)>, host: string, port: Option<string>,
                     path: Option<string>, query: Option<string>, fragment: Option<string>)

  function Marked(mark: string, text: Option<string>): string {
    if text.None? then "" else mark + text.value
  }

  function Tail(u: Uri): string {
    Marked("/", u.path) + End(u)
  }

  function End(u: Uri): string {
    Marked("?", u.query) + Marked("#", u.fragment)
  }

  function HostAndOn(u: Uri): string {
    u.host + (Marked(":", u.port) + Tail(u))
  }

  function Authority(u: Uri): string {
    if u.userinfo.None? then HostAndOn(u)
    else u.userinfo.value.0 + (":" + (u.userinfo.value.1 + ("@" + HostAndOn(u))))
  }

  function Print(u: Uri): string {
    u.scheme + ("://" + Authority(u))
  }

  // ----- the character sets the scanner assumes -----

  /** The bracket flag after the first `k` characters. */
  function Flag(t: string, k: nat): bool
    requires k <= |t|
  {
    if k == 0 then false else Bracketed(Flag(t, k - 1), t[k - 1])
  }

  /** It is set if and only if a '[' has come and no ']' since. */
  lemma {:induction false} FlagIff(t: string, k: nat)
    requires k <= |t|
    ensures Flag(t, k) <==> exists i :: 0 <= i < k && t[i] == '[' && ']' !in t[i..k]
  {
    if k > 0 {
      FlagIff(t, k - 1);
      assert t[k - 1..k] == [t[k - 1]];
      forall i | 0 <= i < k - 1 ensures ']' !in t[i..k] <==> ']' !in t[i..k - 1] && t[k - 1] != ']' {
        assert t[i..k] == t[i..k - 1] + [t[k - 1]];
      }
    }
  }

  /** Separators occur only inside brackets, and the brackets are closed. */
  predicate HostText(t: string) {
    !Flag(t, |t|) && forall k :: 0 <= k < |t| ==>
      t[k] != END && (Flag(t, k + 1) || t[k] !in ":/#")
  }

  predicate Quiet(mode: Mode, c: char) {
    c != END &&
    match mode
    case PasswordOrPort => c !in "@/#"
    case Port => c !in "/?#"
    case Path => c != '#'
    case Query => c !in "#[]"
    case Fragment => true
    case _ => false
  }

  predicate AllQuiet(mode: Mode, t: string) {
    forall k :: 0 <= k < |t| ==> Quiet(mode, t[k])
  }

  /** "://" stands nowhere in the scheme, nor across its end. */
  predicate SchemeText(t: string) {
    var u := t + "://";
    forall k :: 0 <= k < |t| ==> t[k] != END && !(u[k] == ':' && u[k + 1] == '/' && u[k + 2] == '/')
  }

  predicate WellFormed(u: Uri) {
    && SchemeText(u.scheme)
    && (u.userinfo.Some? ==> HostText(u.userinfo.value.0) && AllQuiet(PasswordOrPort, u.userinfo.value.1))
    && u.host != [] && HostText(u.host)
    && (u.port.Some? ==> AllQuiet(if u.userinfo.Some? then Port else PasswordOrPort, u.port.value))
    && (u.path.Some? ==> AllQuiet(Path, u.path.value))
    && (u.query.Some? ==> AllQuiet(Query, u.query.value))
    && (u.fragment.Some? ==> AllQuiet(Fragment, u.fragment.value))
  }

  /** The only place where the scanner looks for a query: behind a port that follows a user. */
  predicate QuerySeen(u: Uri) {
    u.userinfo.Some? && u.port.Some? && u.path.None?
  }

  /** What the parser should return. */
  function Components(u: Uri): Parsed {
    Parsed(u.scheme, if u.userinfo.Some? then Some(u.userinfo.value.0) else None,
           if u.userinfo.Some? then Some(u.userinfo.value.1) else None,
           Some(u.host), u.port, Slashed(u.path), u.query, u.fragment)
  }

  // ----- stretches without separators -----

  /** The text still to be read is `t`. */
  predicate Unread(s: Scan, t: string) {
    IsAt(s.buf, s.cur, t) && s.cur + |t| + 1 == |s.buf| && s.buf[|s.buf| - 1] == END
  }

  lemma UnreadSplit(s: Scan, a: string, b: string)
    requires Unread(s, a + b)
    ensures IsAt(s.buf, s.cur, a) && Unread(s.(cur := s.cur + |a|), b)
  {
    IsAtSplit(s.buf, s.cur, a, b);
  }

  lemma {:induction false} SkipQuiet(s: Scan, t: string, k: nat)
    requires k <= |t| && IsAt(s.buf, s.cur, t) && AllQuiet(s.mode, t)
    ensures Run(s.(cur := s.cur + k)) == Run(s.(cur := s.cur + |t|))
    decreases |t| - k
  {
    if k < |t| {
      var at := s.(cur := s.cur + k);
      assert s.buf[s.cur + k] == t[k] && Quiet(s.mode, t[k]);
      assert Step(at) == s.(cur := s.cur + (k + 1));
      SkipQuiet(s, t, k + 1);
    }
  }

  lemma {:induction false} SkipHost(s: Scan, t: string, k: nat)
    requires k <= |t| && IsAt(s.buf, s.cur, t) && HostText(t) && !s.bracket
    requires s.mode == UserOrHost || s.mode == Host
    ensures Run(s.(cur := s.cur + k, bracket := Flag(t, k))) == Run(s.(cur := s.cur + |t|))
    decreases |t| - k
  {
    if k < |t| {
      var at := s.(cur := s.cur + k, bracket := Flag(t, k));
      assert s.buf[s.cur + k] == t[k] && (Flag(t, k + 1) || t[k] !in ":/#");
      assert Step(at) == s.(cur := s.cur + (k + 1), bracket := Flag(t, k + 1));
      SkipHost(s, t, k + 1);
    } else {
      assert s.(cur := s.cur + k, bracket := Flag(t, k)) == s.(cur := s.cur + |t|);
    }
  }

  lemma SchemeGoesOn(s: Scan, t: string, k: nat)
    requires k < |t| && IsAt(s.buf, s.cur, t + "://") && SchemeText(t)
    ensures s.buf[s.cur + k] != END && !SchemeEnds(s.(cur := s.cur + k))
  {
    var u := t + "://";
    assert s.buf[s.cur + k] == u[k] == t[k];
    assert s.buf[s.cur + (k + 1)] == u[k + 1] && s.buf[s.cur + (k + 2)] == u[k + 2];
  }

  lemma {:induction false} SkipScheme(s: Scan, t: string, k: nat)
    requires k <= |t| && IsAt(s.buf, s.cur, t + "://") && SchemeText(t) && s.mode == Scheme
    ensures Run(s.(cur := s.cur + k)) == Run(s.(cur := s.cur + |t|))
    decreases |t| - k
  {
    if k < |t| {
      SchemeGoesOn(s, t, k);
      assert Step(s.(cur := s.cur + k)) == s.(cur := s.cur + (k + 1));
      SkipScheme(s, t, k + 1);
    }
  }

  // ----- the phases of a printed URI -----

  lemma NothingLeft(s: Scan)
    requires Unread(s, "")
    ensures Run(s) == s
  {
  }

  /** At a separator the scanner jumps. */
  lemma JumpsAt(s: Scan, mark: string, to: Mode)
    requires |mark| == 1 && IsAt(s.buf, s.cur, mark) && mark[0] !in [END, '[', ']']
    requires s.mode != Scheme && !s.bracket && Target(s.mode, false, mark[0]) == Some(to)
    ensures Run(s) == Run(Jump(s, to))
  {
    assert s.buf[s.cur + 0] == mark[0];
    assert Step(s) == Jump(s, to);
  }

  lemma UnreadJump(s: Scan, t: string, to: Mode)
    requires s.cur < |s.buf| && Unread(s.(cur := s.cur + 1), t)
    ensures Unread(Jump(s, to), t)
  {
  }

  /** A separator and the quiet text behind it. */
  lemma ReadMarked(s: Scan, mark: string, to: Mode, t: string, rest: string) returns (r: Scan)
    requires |mark| == 1 && mark[0] !in [END, '[', ']'] && Unread(s, mark + (t + rest))
    requires s.mode != Scheme && !s.bracket && Target(s.mode, false, mark[0]) == Some(to)
    requires AllQuiet(to, t)
    ensures s.cur < |s.buf| && r == Jump(s, to).(cur := s.cur + 1 + |t|)
    ensures Run(s) == Run(r) && Unread(r, rest) && IsAt(r.buf, s.cur + 1, t)
  {
    UnreadSplit(s, mark, t + rest);
    JumpsAt(s, mark, to);
    UnreadJump(s, t + rest, to);
    r := Jump(s, to);
    UnreadSplit(r, t, rest);
    SkipQuiet(r, t, 0);
    r := r.(cur := r.cur + |t|);
  }

  // ----- what the pointers show -----

  /** `t` has been read at `p`: it is cut off behind, or its end is the read position. */
  predicate Have(s: Scan, p: nat, t: string) {
    IsAt(s.buf, p, t) && END !in t && p + |t| <= s.cur < |s.buf| &&
    (p + |t| < s.cur ==> s.buf[p + |t|] == END)
  }

  predicate Shown(s: Scan, p: Option<nat>, t: Option<string>) {
    if t.None? then p.None? else p.Some? && Have(s, p.value, t.value)
  }

  /** The state has read the components of `v` and no others. */
  predicate Shows(s: Scan, v: Uri) {
    && !s.bracket && Shown(s, s.query, v.query)
    && Have(s, 0, v.scheme) && Shown(s, s.host, Some(v.host)) && Shown(s, s.port, v.port)
    && Shown(s, s.path, v.path) && Shown(s, s.fragment, v.fragment)
    && match s.mode
       case Scheme => false
       case UserOrHost =>
         v.userinfo.None? && s.username == s.host && s.password.None? && v.port.None? && v.path.None? && v.query.None?
       case PasswordOrPort =>
         v.userinfo.None? && s.username == s.host && s.password == s.port && v.path.None? && v.query.None?
       case Host => ShowsUser(s, v) && v.userinfo.Some? && v.port.None? && v.path.None? && v.query.None?
       case Port => ShowsUser(s, v) && v.userinfo.Some? && v.path.None? && v.query.None?
       case Path => ShowsUser(s, v) && v.query.None?
       case _ => ShowsUser(s, v)
  }

  predicate ShowsUser(s: Scan, v: Uri) {
    if v.userinfo.None? then s.username.None? && s.password.None?
    else Shown(s, s.username, Some(v.userinfo.value.0)) && Shown(s, s.password, Some(v.userinfo.value.1))
  }

  /** What was read before a jump stays read. */
  lemma HaveKeeps(s: Scan, to: Mode, n: nat, p: nat, t: string)
    requires Have(s, p, t) && s.cur + 1 + n < |s.buf|
    ensures Have(Jump(s, to).(cur := s.cur + 1 + n), p, t)
  {
  }

  lemma ShownKeeps(s: Scan, to: Mode, n: nat, p: Option<nat>, t: Option<string>)
    requires Shown(s, p, t) && s.cur + 1 + n < |s.buf|
    ensures Shown(Jump(s, to).(cur := s.cur + 1 + n), p, t)
  {
    if t.Some? {
      HaveKeeps(s, to, n, p.value, t.value);
    }
  }

  lemma AllShownKeep(s: Scan, v: Uri, to: Mode, n: nat)
    requires Shows(s, v) && s.cur + 1 + n < |s.buf|
    ensures var r := Jump(s, to).(cur := s.cur + 1 + n);
            && Have(r, 0, v.scheme) && Shown(r, s.host, Some(v.host)) && Shown(r, s.port, v.port)
            && Shown(r, s.path, v.path) && Shown(r, s.query, v.query) && Shown(r, s.fragment, v.fragment)
            && (v.userinfo.Some? ==> Shown(r, s.username, Some(v.userinfo.value.0)) &&
                                     Shown(r, s.password, Some(v.userinfo.value.1)))
  {
    HaveKeeps(s, to, n, 0, v.scheme);
    ShownKeeps(s, to, n, s.host, Some(v.host));
    ShownKeeps(s, to, n, s.port, v.port);
    ShownKeeps(s, to, n, s.path, v.path);
    ShownKeeps(s, to, n, s.query, v.query);
    ShownKeeps(s, to, n, s.fragment, v.fragment);
    if v.userinfo.Some? {
      ShownKeeps(s, to, n, s.username, Some(v.userinfo.value.0));
      ShownKeeps(s, to, n, s.password, Some(v.userinfo.value.1));
    }
  }

  function PortMode(s: Scan): Mode { if s.mode == UserOrHost then PasswordOrPort else Port }

  lemma ReadPort(s: Scan, v: Uri, port: string, rest: string) returns (r: Scan)
    requires Shows(s, v) && (s.mode == UserOrHost || s.mode == Host) && v.fragment.None?
    requires Unread(s, ":" + (port + rest)) && AllQuiet(PortMode(s), port)
    ensures Run(s) == Run(r) && Unread(r, rest) && Shows(r, v.(port := Some(port))) && r.mode == PortMode(s)
  {
    r := ReadMarked(s, ":", PortMode(s), port, rest);
    AllShownKeep(s, v, PortMode(s), |port|);
    assert END !in port;
  }

  /** A path behind a host and perhaps a port, with no user. */
  lemma PathBehindHost(s: Scan, v: Uri, path: string, r: Scan)
    requires Shows(s, v) && s.mode in {UserOrHost, PasswordOrPort} && v.fragment.None? && END !in path
    requires s.cur + 1 + |path| < |s.buf| && r == Jump(s, Path).(cur := s.cur + 1 + |path|)
    requires IsAt(r.buf, s.cur + 1, path) && Shown(r, r.path, Some(path))
    ensures Shows(r, v.(path := Some(path)))
  {
    AllShownKeep(s, v, Path, |path|);
    assert r.username.None? && r.password.None?;
  }

  /** A path behind a user, a password, a host and perhaps a port. */
  lemma PathBehindUser(s: Scan, v: Uri, path: string, r: Scan)
    requires Shows(s, v) && s.mode in {Host, Port} && v.fragment.None? && END !in path
    requires s.cur + 1 + |path| < |s.buf| && r == Jump(s, Path).(cur := s.cur + 1 + |path|)
    requires IsAt(r.buf, s.cur + 1, path) && Shown(r, r.path, Some(path))
    ensures Shows(r, v.(path := Some(path)))
  {
    AllShownKeep(s, v, Path, |path|);
    assert s.mode == Host ==> r.port.None?;
  }

  lemma ReadPath(s: Scan, v: Uri, path: string, rest: string) returns (r: Scan)
    requires Shows(s, v) && s.mode !in {Path, Query, Fragment} && v.fragment.None?
    requires Unread(s, "/" + (path + rest)) && AllQuiet(Path, path)
    ensures Run(s) == Run(r) && Unread(r, rest) && Shows(r, v.(path := Some(path))) && r.mode == Path
  {
    r := ReadMarked(s, "/", Path, path, rest);
    assert END !in path;
    if s.mode in {UserOrHost, PasswordOrPort} {
      PathBehindHost(s, v, path, r);
    } else {
      PathBehindUser(s, v, path, r);
    }
  }

  lemma ReadQuery(s: Scan, v: Uri, query: string, rest: string) returns (r: Scan)
    requires Shows(s, v) && s.mode == Port && v.fragment.None?
    requires Unread(s, "?" + (query + rest)) && AllQuiet(Query, query)
    ensures Run(s) == Run(r) && Unread(r, rest) && Shows(r, v.(query := Some(query))) && r.mode == Query
  {
    r := ReadMarked(s, "?", Query, query, rest);
    AllShownKeep(s, v, Query, |query|);
    assert END !in query;
  }

  lemma ReadFragment(s: Scan, v: Uri, fragment: string) returns (r: Scan)
    requires Shows(s, v) && s.mode != Fragment && v.fragment.None?
    requires Unread(s, "#" + (fragment + "")) && AllQuiet(Fragment, fragment)
    ensures Run(s) == Run(r) && Unread(r, "") && Shows(r, v.(fragment := Some(fragment)))
  {
    r := ReadMarked(s, "#", Fragment, fragment, "");
    AllShownKeep(s, v, Fragment, |fragment|);
    assert END !in fragment;
  }

  // ----- from the start to the host -----

  lemma HostHasNoEnd(t: string)
    requires HostText(t)
    ensures END !in t
  {
  }

  /** Past the scheme, with host and user name both pointing at what comes. */
  predicate PastScheme(a: Scan, scheme: string) {
    && a.mode == UserOrHost && !a.bracket
    && Have(a, 0, scheme) && |scheme| < a.cur && a.host == a.username == Some(a.cur)
    && a.password.None? && a.port.None? && a.path.None? && a.query.None? && a.fragment.None?
  }

  lemma PassMark(s: Scan, rest: string)
    requires s.mode == Scheme && Unread(s, "://" + rest) && rest != []
    ensures s.cur + 3 <= |s.buf| && Run(s) == Run(SkipMark(s)) && Unread(SkipMark(s), rest)
  {
    UnreadSplit(s, "://", rest);
    assert s.buf[s.cur + 0] == "://"[0] && s.buf[s.cur + 1] == "://"[1] && s.buf[s.cur + 2] == "://"[2];
    StepsOverMark(s);
    UnreadAfterMark(s, rest);
  }

  lemma StepsOverMark(s: Scan)
    requires s.mode == Scheme && s.cur + 4 < |s.buf|
    requires s.buf[s.cur] == ':' && s.buf[s.cur + 1] == '/' && s.buf[s.cur + 2] == '/'
    ensures Run(s) == Run(SkipMark(s))
  {
    assert Step(s) == SkipMark(s);
  }

  lemma UnreadAfterMark(s: Scan, rest: string)
    requires s.cur + 3 <= |s.buf| && Unread(s.(cur := s.cur + 3), rest)
    ensures Unread(SkipMark(s), rest)
  {
  }

  /** The scheme is run over up to its mark. */
  lemma ReachMark(u: Uri) returns (m: Scan)
    requires SchemeText(u.scheme)
    ensures m == Start(Print(u)).(cur := |u.scheme|) && Run(Start(Print(u))) == Run(m)
    ensures Unread(m, "://" + Authority(u)) && IsAt(m.buf, 0, u.scheme)
  {
    var s := Start(Print(u));
    m := s.(cur := |u.scheme|);
    Assoc(u.scheme, "://", Authority(u));
    UnreadSplit(s, u.scheme + "://", Authority(u));
    UnreadSplit(s, u.scheme, "://" + Authority(u));
    SkipScheme(s, u.scheme, 0);
    assert s == s.(cur := 0);
  }

  lemma ReadScheme(u: Uri) returns (a: Scan)
    requires SchemeText(u.scheme) && Authority(u) != []
    ensures Run(Start(Print(u))) == Run(a) && Unread(a, Authority(u)) && PastScheme(a, u.scheme)
  {
    var m := ReachMark(u);
    PassMark(m, Authority(u));
    MarkPassed(m, u.scheme);
    a := SkipMark(m);
  }

  lemma MarkPassed(m: Scan, scheme: string)
    requires SchemeText(scheme) && IsAt(m.buf, 0, scheme) && m.cur == |scheme| && m.cur + 3 < |m.buf|
    requires m == Start(m.buf).(buf := m.buf, cur := m.cur)
    ensures PastScheme(SkipMark(m), scheme)
  {
    assert END !in scheme;
  }

  /** The first name is taken for a host until an '@' comes. */
  lemma ReadFirstHost(a: Scan, scheme: string, name: string, rest: string) returns (h: Scan)
    requires Unread(a, name + rest) && HostText(name) && PastScheme(a, scheme)
    ensures Run(a) == Run(h) && Unread(h, rest) && h.mode == UserOrHost
    ensures Shows(h, Uri(scheme, None, name, None, None, None, None))
  {
    h := ReadHostText(a, name, rest);
    HostHasNoEnd(name);
  }

  /** At the '@', host and port turn out to be user and password. */
  lemma ReadRealHost(s: Scan, v: Uri, host: string, rest: string) returns (r: Scan)
    requires Shows(s, v) && s.mode == PasswordOrPort && v.port.Some? && v.fragment.None?
    requires Unread(s, "@" + (host + rest)) && HostText(host)
    ensures Run(s) == Run(r) && Unread(r, rest) && r.mode == Host
    ensures Shows(r, Uri(v.scheme, Some((v.host, v.port.value)), host, None, None, None, None))
  {
    r := ReadHostAt(s, host, rest);
    AllShownKeep(s, v, Host, |host|);
    HostHasNoEnd(host);
  }

  lemma ReadHostAt(s: Scan, host: string, rest: string) returns (r: Scan)
    requires Unread(s, "@" + (host + rest)) && HostText(host) && s.mode == PasswordOrPort && !s.bracket
    ensures s.cur < |s.buf| && r == Jump(s, Host).(cur := s.cur + 1 + |host|)
    ensures Run(s) == Run(r) && Unread(r, rest) && IsAt(r.buf, s.cur + 1, host)
  {
    r := ReadAt(s, host + rest);
    r := ReadHostText(r, host, rest);
  }

  /** A host is run over up to what follows it. */
  lemma ReadHostText(s: Scan, host: string, rest: string) returns (r: Scan)
    requires Unread(s, host + rest) && HostText(host) && !s.bracket
    requires s.mode == UserOrHost || s.mode == Host
    ensures r == s.(cur := s.cur + |host|) && Run(s) == Run(r) && Unread(r, rest) && IsAt(r.buf, s.cur, host)
  {
    UnreadSplit(s, host, rest);
    SkipHost(s, host, 0);
    assert s == s.(cur := s.cur + 0, bracket := Flag(host, 0));
    r := s.(cur := s.cur + |host|);
  }

  lemma ReadAt(s: Scan, rest: string) returns (r: Scan)
    requires Unread(s, "@" + rest) && s.mode == PasswordOrPort && !s.bracket
    ensures s.cur < |s.buf| && r == Jump(s, Host) && Run(s) == Run(r) && Unread(r, rest)
  {
    UnreadSplit(s, "@", rest);
    JumpsAt(s, "@", Host);
    UnreadJump(s, rest, Host);
    r := Jump(s, Host);
  }

  lemma ReadAuthority(u: Uri) returns (h: Scan)
    requires WellFormed(u)
    ensures Run(Start(Print(u))) == Run(h) && Unread(h, Marked(":", u.port) + Tail(u))
    ensures Shows(h, u.(port := None, path := None, query := None, fragment := None))
    ensures h.mode == if u.userinfo.None? then UserOrHost else Host
  {
    var rest := Marked(":", u.port) + Tail(u);
    var a := ReadScheme(u);
    if u.userinfo.None? {
      h := ReadFirstHost(a, u.scheme, u.host, rest);
    } else {
      var (user, password) := u.userinfo.value;
      h := ReadFirstHost(a, u.scheme, user, ":" + (password + ("@" + HostAndOn(u))));
      var v := Uri(u.scheme, None, user, None, None, None, None);
      h := ReadPort(h, v, password, "@" + HostAndOn(u));
      h := ReadRealHost(h, v.(port := Some(password)), u.host, rest);
    }
  }

  // ----- the end -----

  /** The mode in which the end of a printed URI is met. */
  function ModeAtEnd(u: Uri): Mode {
    if u.path.Some? then Path
    else if u.port.Some? then (if u.userinfo.Some? then Port else PasswordOrPort)
    else if u.userinfo.Some? then Host
    else UserOrHost
  }

  lemma ReadToEnd(h: Scan, u: Uri) returns (f: Scan)
    requires WellFormed(u) && Unread(h, Marked(":", u.port) + Tail(u))
    requires Shows(h, u.(port := None, path := None, query := None, fragment := None))
    requires h.mode == if u.userinfo.None? then UserOrHost else Host
    ensures Run(h) == Run(f) && Unread(f, End(u)) && Shows(f, u.(query := None, fragment := None))
    ensures f.mode == ModeAtEnd(u)
  {
    f := h;
    var v := u.(path := None, query := None, fragment := None);
    if u.port.Some? {
      Assoc(":", u.port.value, Tail(u));
      f := ReadPort(f, v.(port := None), u.port.value, Tail(u));
    } else {
      assert "" + Tail(u) == Tail(u);
    }
    if u.path.Some? {
      Assoc("/", u.path.value, End(u));
      f := ReadPath(f, v, u.path.value, End(u));
    } else {
      assert "" + End(u) == End(u);
    }
  }

  lemma ReadEnd(h: Scan, u: Uri) returns (f: Scan)
    requires WellFormed(u) && (u.query.Some? ==> QuerySeen(u)) && Unread(h, End(u))
    requires Shows(h, u.(query := None, fragment := None)) && h.mode == ModeAtEnd(u)
    ensures Run(h) == Run(f) && Unread(f, "") && Shows(f, u)
  {
    f := h;
    var fragment := Marked("#", u.fragment);
    if u.query.Some? {
      Assoc("?", u.query.value, fragment);
      f := ReadQuery(f, u.(query := None, fragment := None), u.query.value, fragment);
    } else {
      assert "" + fragment == fragment;
    }
    if u.fragment.Some? {
      assert u.fragment.value + "" == u.fragment.value;
      f := ReadFragment(f, u.(fragment := None), u.fragment.value);
    }
  }

  lemma {:induction false} CStrIs(buf: string, p: nat, t: string, k: nat)
    requires k <= |t| && IsAt(buf, p, t) && END !in t && p + |t| < |buf| && buf[p + |t|] == END
    ensures CStr(buf, p + k) == t[k..]
    decreases |t| - k
  {
    if k < |t| {
      assert buf[p + k] == t[k];
      CStrIs(buf, p, t, k + 1);
    }
  }

  lemma HaveIsText(f: Scan, p: nat, t: string)
    requires Have(f, p, t) && Unread(f, "")
    ensures CStr(f.buf, p) == t
  {
    CStrIs(f.buf, p, t, 0);
    assert t[0..] == t;
  }

  lemma ShownIsText(f: Scan, p: Option<nat>, t: Option<string>)
    requires Shown(f, p, t) && Unread(f, "")
    ensures Text(f.buf, p) == t
  {
    if t.Some? {
      HaveIsText(f, p.value, t.value);
    }
  }

  lemma FinishShows(f: Scan, u: Uri)
    requires Shows(f, u) && Unread(f, "")
    ensures Finish(f) == Some(Components(u))
  {
    HaveIsText(f, 0, u.scheme);
    ShownIsText(f, f.host, Some(u.host));
    ShownIsText(f, f.port, u.port);
    ShownIsText(f, f.path, u.path);
    ShownIsText(f, f.query, u.query);
    ShownIsText(f, f.fragment, u.fragment);
    if u.userinfo.Some? {
      ShownIsText(f, f.username, Some(u.userinfo.value.0));
      ShownIsText(f, f.password, Some(u.userinfo.value.1));
    }
  }

  /** Round trip: for every URI with the character sets above, parsing the printed URI returns
      exactly its components, with "/" for an absent or empty path. */
  lemma ParsePrint(u: Uri)
    requires WellFormed(u) && (u.query.Some? ==> QuerySeen(u))
    ensures Parse(Print(u)) == Some(Components(u))
  {
    var h := ReadAuthority(u);
    h := ReadToEnd(h, u);
    var f := ReadEnd(h, u);
    NothingLeft(f);
    FinishShows(f, u);
  }

  // ----- every input -----

  predicate MarkAt(url: string, i: nat) {
    i + 3 < |url| && url[i] == ':' && url[i + 1] == '/' && url[i + 2] == '/'
  }

  lemma {:induction false} StaysBehind(s: Scan)
    requires s.mode != Scheme
    ensures Run(s).mode != Scheme
    decreases |s.buf| - s.cur
  {
    if !AtEnd(s) {
      StaysBehind(Step(s));
    }
  }

  lemma {:induction false} RejectFrom(url: string, s: Scan)
    requires s.mode == Scheme && s.buf == url + [END] && END !in url && s.cur <= |url|
    ensures Run(s).mode == Scheme <==> forall i :: s.cur <= i < |url| ==> !MarkAt(url, i)
    decreases |url| - s.cur
  {
    if s.cur < |url| {
      assert s.buf[s.cur] == url[s.cur];
      if SchemeEnds(s) {
        assert MarkAt(url, s.cur);
        StaysBehind(Step(s));
      } else {
        assert !MarkAt(url, s.cur);
        RejectFrom(url, Step(s));
      }
    }
  }

  /** A string is rejected exactly when "://" with something behind it occurs nowhere. */
  lemma ParseRejects(url: string)
    requires END !in url
    ensures Parse(url).None? <==> forall i :: 0 <= i < |url| ==> !MarkAt(url, i)
  {
    RejectFrom(url, Start(url));
  }
}
