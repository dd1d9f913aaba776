/** Where a printed query ends up, and a user without a password. */
module UriQuery {
  import opened Options
  import opened Bytes
  import opened UriModel
  import opened UriRoundTrip

  // ----- the query comes back -----

  /** A scanner in a fragment only walks on. */
  lemma {:induction false} FragmentWalks(s: Scan)
    requires s.mode == Fragment
    ensures Run(s).buf == s.buf && Run(s).query == s.query && Run(s).mode == Fragment
    decreases |s.buf| - s.cur
  {
    if !AtEnd(s) {
      FragmentWalks(Step(s));
    }
  }

  /** Plain text up to a fragment or the end, at `e`: a query found on the way starts within it and
      is cut off there. */
  lemma {:induction false} QueryWithin(s: Scan, e: nat)
    requires s.mode != Scheme && s.mode != Fragment && !s.bracket
    requires s.cur <= e < |s.buf| && s.buf[e] in [END, '#']
    requires forall i :: s.cur <= i < e ==> s.buf[i] !in [END, '#', '[', ']']
    ensures Run(s).buf[e] == END && Run(s).mode != Scheme
    ensures Run(s).query == s.query || (Run(s).query.Some? && s.cur < Run(s).query.value <= e)
    decreases e - s.cur
  {
    var n := if AtEnd(s) then s else Step(s);
    if s.cur == e {
      if s.buf[e] != END {
        assert n == Jump(s, Fragment);
        FragmentWalks(n);
      }
    } else {
      assert s.buf[s.cur] !in [END, '#', '[', ']'];
      assert n.cur == s.cur + 1 && n.mode != Fragment && n.mode != Scheme && !n.bracket;
      assert forall i :: n.cur <= i < |s.buf| ==> n.buf[i] == s.buf[i];
      QueryWithin(n, e);
    }
  }

  lemma {:induction false} CStrWithin(buf: string, p: nat, e: nat)
    requires p <= e < |buf| && buf[e] == END
    ensures |CStr(buf, p)| <= e - p
    decreases e - p
  {
    if p < e {
      CStrWithin(buf, p + 1, e);
    }
  }

  /** Outside the port of a user the mark of a query is plain text, so what is found later is
      shorter than the query. */
  lemma {:induction false} NotTheQuery(s: Scan, query: string, rest: string)
    requires s.mode in {UserOrHost, PasswordOrPort, Host, Path} && !s.bracket && s.query.None?
    requires Unread(s, "?" + (query + rest)) && AllQuiet(Query, query)
    requires rest == "" || rest[0] == '#'
    ensures Finish(Run(s)).Some? && Finish(Run(s)).value.query != Some(query)
  {
    var e := s.cur + 1 + |query|;
    UnreadSplit(s, "?", query + rest);
    assert s.buf[s.cur + 0] == "?"[0];
    var n := Step(s);
    assert n == s.(cur := s.cur + 1);
    UnreadSplit(n, query, rest);
    forall i | n.cur <= i < e ensures s.buf[i] !in [END, '#', '[', ']'] {
      assert s.buf[n.cur + (i - n.cur)] == query[i - n.cur];
      assert Quiet(Query, query[i - n.cur]);
    }
    if rest != "" {
      assert s.buf[e + 0] == rest[0];
    }
    QueryWithin(n, e);
    var f := Run(s);
    if f.query.Some? {
      CStrWithin(f.buf, f.query.value, e);
    }
  }

  /** The printed query comes back as the query if and only if it follows a port that follows a
      user; with a path before it, or without a port or a user, it does not. */
  lemma {:induction false} QueryComesBackIff(u: Uri)
    requires WellFormed(u) && u.query.Some?
    ensures Parse(Print(u)).Some?
    ensures Parse(Print(u)).value.query == u.query <==> QuerySeen(u)
  {
    if QuerySeen(u) {
      ParsePrint(u);
    } else {
      var h := ReadAuthority(u);
      var f := ReadToEnd(h, u);
      Assoc("?", u.query.value, Marked("#", u.fragment));
      NotTheQuery(f, u.query.value, Marked("#", u.fragment));
    }
  }

  lemma {:induction false} QueryNeedsPort(s: Scan)
    requires s.query.Some? ==> s.username.Some? && s.port.Some? && s.mode in {Query, Fragment}
    requires s.mode in {Host, Port} ==> s.username.Some?
    requires s.mode == Port ==> s.port.Some?
    requires s.mode == UserOrHost || s.mode == PasswordOrPort ==> s.username.Some?
    ensures Run(s).query.Some? ==> Run(s).username.Some? && Run(s).port.Some? && Run(s).mode in {Query, Fragment}
    decreases |s.buf| - s.cur
  {
    if !AtEnd(s) {
      QueryNeedsPort(Step(s));
    }
  }

  /** In every string, printed or not, a query is split off only behind a port that follows a user. */
  lemma QueryOnlyBehindPort(url: string)
    requires Parse(url).Some? && Parse(url).value.query.Some?
    ensures Parse(url).value.username.Some? && Parse(url).value.port.Some?
  {
    QueryNeedsPort(Start(url));
  }

  // ----- where it ends up otherwise -----

  /** The component in front of the query, with it. */
  function Merged(u: Uri): Uri
    requires u.query.Some?
  {
    var q := "?" + u.query.value;
    var v := u.(query := None);
    if u.path.Some? then v.(path := Some(u.path.value + q))
    else if u.port.Some? then v.(port := Some(u.port.value + q))
    else v.(host := u.host + q)
  }

  /** The query has no separator of the component it is read into. */
  predicate StaysWhole(u: Uri) {
    u.query.Some? &&
    if u.path.Some? then AllQuiet(Path, u.query.value)
    else if u.port.Some? then AllQuiet(PasswordOrPort, u.query.value)
    else HostText(u.query.value)
  }

  lemma {:induction false} FlagConcat(a: string, b: string, k: nat)
    requires !Flag(a, |a|) && k <= |a + b|
    ensures Flag(a + b, k) == if k <= |a| then Flag(a, k) else Flag(b, k - |a|)
  {
    if k > 0 {
      FlagConcat(a, b, k - 1);
    }
  }

  lemma {:induction false} HostConcat(a: string, b: string)
    requires HostText(a) && HostText(b)
    ensures HostText(a + b)
  {
    forall k | 0 <= k < |a + b|
      ensures (a + b)[k] != END && (Flag(a + b, k + 1) || (a + b)[k] !in ":/#")
    {
      FlagConcat(a, b, k + 1);
    }
    FlagConcat(a, b, |a + b|);
  }

  lemma {:induction false} PlainHost(mark: string)
    requires mark == "?" || mark == "@"
    ensures HostText(mark)
  {
    assert Flag(mark, 0) == false && Flag(mark, 1) == Bracketed(false, mark[0]);
  }

  lemma {:induction false} MergedPrintsTheSame(u: Uri)
    requires u.query.Some?
    ensures Print(Merged(u)) == Print(u)
  {
    var v, q, fragment := Merged(u), "?" + u.query.value, Marked("#", u.fragment);
    assert End(v) == fragment && End(u) == q + fragment;
    if u.path.Some? {
      assert "/" + (u.path.value + q) + fragment == "/" + u.path.value + (q + fragment);
      assert Tail(v) == Tail(u);
    } else {
      assert Tail(u) == q + fragment && Tail(v) == fragment;
      if u.port.Some? {
        assert ":" + (u.port.value + q) + fragment == ":" + u.port.value + (q + fragment);
      } else {
        assert (u.host + q) + ("" + fragment) == u.host + ("" + (q + fragment));
      }
    }
    assert HostAndOn(v) == HostAndOn(u);
  }

  /** Elsewhere the question mark is text of the component it stands in: of the path, of a port
      without a user, or of the host. */
  lemma {:induction false} QueryStays(u: Uri)
    requires WellFormed(u) && !QuerySeen(u) && StaysWhole(u)
    ensures Parse(Print(u)) == Some(Components(Merged(u)))
  {
    MergedPrintsTheSame(u);
    if u.path.None? && u.port.None? {
      PlainHost("?");
      HostConcat("?", u.query.value);
      HostConcat(u.host, "?" + u.query.value);
    }
    ParsePrint(Merged(u));
  }

  // ----- a user without a password -----

  /** `u` printed with a user, whose password may be missing. */
  function PrintUser(u: Uri, name: string, password: Option<string>): string {
    u.scheme + ("://" + (name + (Marked(":", password) + ("@" + HostAndOn(u)))))
  }

  /** The user comes back if and only if it has a password; without one the whole is the host. */
  lemma {:induction false} UserNeedsPassword(u: Uri, name: string, password: Option<string>)
    requires var v := if password.Some? then u.(userinfo := Some((name, password.value))) else u;
      WellFormed(v) && HostText(name) && (u.query.Some? ==> QuerySeen(v))
    requires u.userinfo.None?
    ensures Parse(PrintUser(u, name, password)).Some?
    ensures var p := Parse(PrintUser(u, name, password)).value;
      && (p.username == Some(name) <==> password.Some?)
      && (password.Some? ==> p.password == password && p.host == Some(u.host))
      && (password.None? ==> p.username.None? && p.host == Some(name + "@" + u.host))
  {
    if password.Some? {
      var v := u.(userinfo := Some((name, password.value)));
      Assoc(":", password.value, "@" + HostAndOn(u));
      assert HostAndOn(v) == HostAndOn(u);
      ParsePrint(v);
    } else {
      var v := u.(host := name + "@" + u.host);
      PlainHost("@");
      HostConcat(name, "@");
      HostConcat(name + "@", u.host);
      assert "" + ("@" + HostAndOn(u)) == "@" + HostAndOn(u);
      Assoc(name, "@", HostAndOn(u));
      Assoc(name + "@", u.host, Marked(":", u.port) + Tail(u));
      ParsePrint(v);
    }
  }

  const IN_PATH: Uri := Uri("http", None, "h", None, Some("p"), Some("q"), None)
  const NO_PASSWORD: Uri := Uri("http", None, "h", None, None, None, None)

  /** Two URIs whose query or user does not come back. */
  lemma {:induction false} ExamplesPrinted()
    ensures Print(IN_PATH) == "http://h/p?q" && PrintUser(NO_PASSWORD, "u", None) == "http://u@h"
  {
    assert Tail(IN_PATH) == "/p?q";
    assert Tail(NO_PASSWORD) == "" && HostAndOn(NO_PASSWORD) == "h";
  }

  lemma {:induction false} ExampleQueryInPath()
    ensures Parse("http://h/p?q") == Some(Parsed("http", None, None, Some("h"), None, "/p?q", None, None))
  {
    ExamplesPrinted();
    HttpIsScheme();
    OneLetter("h");
    assert AllQuiet(Path, "p") && AllQuiet(Path, "q") && AllQuiet(Query, "q");
    QueryStays(IN_PATH);
    assert "p" + ("?" + "q") == "p?q" && "/" + "p?q" == "/p?q";
  }

  lemma {:induction false} ExampleLoneUser()
    ensures Parse("http://u@h").Some? && Parse("http://u@h").value.username.None?
    ensures Parse("http://u@h").value.host == Some("u@h")
  {
    ExamplesPrinted();
    HttpIsScheme();
    OneLetter("h");
    OneLetter("u");
    UserNeedsPassword(NO_PASSWORD, "u", None);
    assert "u" + "@" + "h" == "u@h";
  }

  lemma {:induction false} OneLetter(t: string)
    requires t in ["h", "u"]
    ensures HostText(t)
  {
    assert Flag(t, 0) == false && Flag(t, 1) == Bracketed(false, t[0]);
  }

  lemma {:induction false} HttpIsScheme()
    ensures SchemeText("http")
  {
    var t := "http" + "://";
    assert t == "http://";
  }
}
