/** The eight-state scanner of uri_parser.c on values: the copied string in which separators are
    overwritten by NULs, the read position, and the component pointers into that string. */
module UriModel {
  import opened Options
  import opened Bytes

  const END := '\0'

  datatype Mode = Scheme | UserOrHost | PasswordOrPort | Host | Port | Path | Query | Fragment

  datatype Scan = Scan(buf: string, cur: nat, mode: Mode, bracket: bool,
                       username: Option<nat>, password: Option<nat>, host: Option<nat>, port: Option<nat>,
                       path: Option<nat>, query: Option<nat>, fragment: Option<nat>)

  function Start(url: string): Scan {
    Scan(url + [END], 0, Scheme, false, None, None, None, None, None, None, None)
  }

  predicate AtEnd(s: Scan) {
    s.cur >= |s.buf| || s.buf[s.cur] == END
  }

  /** The flag that hides separators inside a bracketed literal. */
  function Bracketed(bracket: bool, c: char): bool {
    if c == '[' && !bracket then true else if c == ']' && bracket then false else bracket
  }

  predicate SchemeEnds(s: Scan) {
    s.cur + 4 < |s.buf| &&
    s.buf[s.cur] == ':' && s.buf[s.cur + 1] == '/' && s.buf[s.cur + 2] == '/'
  }

  /** The state entered at the separator `c`, if it is one here. */
  function Target(mode: Mode, bracket: bool, c: char): Option<Mode> {
    match mode
    case UserOrHost =>
      if bracket then None
      else if c == ':' then Some(PasswordOrPort)
      else if c == '#' then Some(Fragment)
      else if c == '/' then Some(Path) else None
    case PasswordOrPort =>
      if c == '@' then Some(Host) else if c == '/' then Some(Path) else if c == '#' then Some(Fragment) else None
    case Host =>
      if bracket then None
      else if c == ':' then Some(Port)
      else if c == '/' then Some(Path)
      else if c == '#' then Some(Fragment) else None
    case Port =>
      if c == '/' then Some(Path) else if c == '?' then Some(Query) else if c == '#' then Some(Fragment) else None
    case Path => if c == '#' then Some(Fragment) else None
    case Query => if c == '#' then Some(Fragment) else None
    case _ => None
  }

  /** The state left behind when a path or fragment starts: without an '@', what was read in
      front is not a user. */
  function Leave(s: Scan): Scan {
    match s.mode
    case UserOrHost => s.(username := None)
    case PasswordOrPort => s.(username := None, password := None)
    case Host => s.(port := None)
    case _ => s
  }

  /** The component pointers on entering a state whose text starts at `next`. */
  function Enter(s: Scan, mode: Mode, next: Option<nat>): Scan {
    match mode
    case PasswordOrPort => s.(password := next, port := next)
    case Host => s.(port := None, host := next)
    case Port => s.(port := next)
    case Path => Leave(s).(path := next)
    case Query => s.(query := next)
    case Fragment => Leave(s).(fragment := next)
    case _ => s
  }

  /** Overwrites the separator and goes on behind it in another state. */
  function Jump(s: Scan, mode: Mode): (r: Scan)
    requires s.cur < |s.buf|
    ensures |r.buf| == |s.buf| && r.cur == s.cur + 1
  {
    Enter(s, mode, Some(s.cur + 1)).(buf := s.buf[s.cur := END], cur := s.cur + 1, mode := mode)
  }

  function SkipMark(s: Scan): (r: Scan)
    requires s.cur + 3 <= |s.buf|
    ensures |r.buf| == |s.buf| && r.cur == s.cur + 3
  {
    s.(buf := s.buf[s.cur := END][s.cur + 1 := END][s.cur + 2 := END], cur := s.cur + 3,
       host := Some(s.cur + 3), username := Some(s.cur + 3), mode := UserOrHost)
  }

  function NewFlag(s: Scan): bool
    requires s.cur < |s.buf|
  {
    if s.mode == UserOrHost || s.mode == Host then Bracketed(s.bracket, s.buf[s.cur]) else s.bracket
  }

  /** One round of the scanning loop. */
  function Step(s: Scan): (r: Scan)
    requires !AtEnd(s)
    ensures |r.buf| == |s.buf| && s.cur < r.cur
  {
    if s.mode == Scheme then
      if SchemeEnds(s) then SkipMark(s) else s.(cur := s.cur + 1)
    else
      var t := s.(bracket := NewFlag(s));
      var to := Target(t.mode, t.bracket, s.buf[s.cur]);
      if to.Some? then Jump(t, to.value) else t.(cur := s.cur + 1)
  }

  /** The scanning loop, to the end of the string. */
  function Run(s: Scan): (r: Scan)
    ensures |r.buf| == |s.buf|
    decreases |s.buf| - s.cur
  {
    if AtEnd(s) then s else Run(Step(s))
  }

  /** The C string at `p`. */
  function CStr(buf: string, p: nat): string
    decreases |buf| - p
  {
    if p >= |buf| || buf[p] == END then [] else [buf[p]] + CStr(buf, p + 1)
  }

  function Text(buf: string, p: Option<nat>): Option<string> {
    if p.None? then None else Some(CStr(buf, p.value))
  }

  /** parsed_uri_t: NULL pointers as None. */
  datatype Parsed = Parsed(scheme: string, username: Option<string>, password: Option<string>,
                           host: Option<string>, port: Option<string>, path: string,
                           query: Option<string>, fragment: Option<string>)

  function Slashed(path: Option<string>): string {
    if path.Some? && path.value != [] then "/" + path.value else "/"
  }

  /** What is made of the scanner's final state: without an '@' the first pair is host and port. */
  function Finish(s: Scan): Option<Parsed> {
    if s.mode == Scheme then None
    else
      var t := if s.mode == UserOrHost || s.mode == PasswordOrPort
               then s.(host := s.username, port := s.password, username := None, password := None)
               else s;
      Some(Parsed(CStr(t.buf, 0), Text(t.buf, t.username), Text(t.buf, t.password), Text(t.buf, t.host),
                  Text(t.buf, t.port), Slashed(Text(t.buf, t.path)), Text(t.buf, t.query),
                  Text(t.buf, t.fragment)))
  }

  /** parse_uri */
  function Parse(url: string): Option<Parsed> {
    Finish(Run(Start(url)))
  }
}

/** parse_uri on the copied string itself. */
module UriParser {
  import opened Options
  import opened Bytes
  import opened UriModel

  /** The scan with these state variables and this buffer. */
  ghost function On(s: Scan, uri: array<char>): Scan
    reads uri
  {
    s.(buf := uri[..])
  }

  /** The switch of the scanning loop behind the scheme: which separator this is, and what it
      does to the pointers; the buffer is not touched here. */
  method Switch(s: Scan, c: char) returns (t: Scan, jump: bool)
    requires s.mode != Scheme
    ensures var b := if s.mode == UserOrHost || s.mode == Host then Bracketed(s.bracket, c) else s.bracket;
            var to := Target(s.mode, b, c);
            && jump == to.Some?
            && t == if jump then Enter(s.(bracket := b), to.value, Some(s.cur + 1)).(mode := to.value)
                    else s.(bracket := b)
  {
    t, jump := s, true;
    var next := Some(s.cur + 1);
    match s.mode {
      case UserOrHost =>
        t := t.(bracket := Bracketed(t.bracket, c));
        if !t.bracket && c == ':' {
          t := t.(password := next, port := next, mode := PasswordOrPort);
        } else if !t.bracket && c == '#' {
          t := t.(username := None, fragment := next, mode := Fragment);
        } else if !t.bracket && c == '/' {
          t := t.(username := None, path := next, mode := Path);
        } else {
          jump := false;
        }
      case PasswordOrPort =>
        if c == '@' {
          t := t.(port := None, host := next, mode := Host);
        } else if c == '/' {
          t := t.(username := None, password := None, path := next, mode := Path);
        } else if c == '#' {
          t := t.(username := None, password := None, fragment := next, mode := Fragment);
        } else {
          jump := false;
        }
      case Host =>
        t := t.(bracket := Bracketed(t.bracket, c));
        if !t.bracket && c == ':' {
          t := t.(port := next, mode := Port);
        } else if !t.bracket && c == '/' {
          t := t.(port := None, path := next, mode := Path);
        } else if !t.bracket && c == '#' {
          t := t.(port := None, fragment := next, mode := Fragment);
        } else {
          jump := false;
        }
      case Port =>
        if c == '/' {
          t := t.(path := next, mode := Path);
        } else if c == '?' {
          t := t.(query := next, mode := Query);
        } else if c == '#' {
          t := t.(fragment := next, mode := Fragment);
        } else {
          jump := false;
        }
      case Path =>
        if c == '#' {
          t := t.(fragment := next, mode := Fragment);
        } else {
          jump := false;
        }
      case Query =>
        if c == '#' {
          t := t.(fragment := next, mode := Fragment);
        } else {
          jump := false;
        }
      case Fragment =>
        jump := false;
    }
  }

  /** A round of the loop in the scheme. */
  method SchemeRound(uri: array<char>, s: Scan) returns (t: Scan)
    requires !AtEnd(On(s, uri)) && s.mode == Scheme
    modifies uri
    ensures On(t, uri) == Step(old(On(s, uri)))
  {
    if s.cur + 3 < uri.Length - 1 && uri[s.cur] == ':' && uri[s.cur + 1] == '/' && uri[s.cur + 2] == '/' {
      uri[s.cur], uri[s.cur + 1], uri[s.cur + 2] := END, END, END;
      var next := Some(s.cur + 3);
      t := s.(cur := s.cur + 3, host := next, username := next, mode := UserOrHost);
      assert On(t, uri).buf == SkipMark(old(On(s, uri))).buf;
    } else {
      t := s.(cur := s.cur + 1);
    }
  }

  /** What a round does, in the terms of Switch. */
  lemma StepOn(s: Scan, buf: string)
    requires !AtEnd(s.(buf := buf)) && s.mode != Scheme
    ensures var c := buf[s.cur];
            var b := if s.mode == UserOrHost || s.mode == Host then Bracketed(s.bracket, c) else s.bracket;
            var to := Target(s.mode, b, c);
            Step(s.(buf := buf)) ==
            if to.Some?
            then Enter(s.(bracket := b), to.value, Some(s.cur + 1))
                 .(mode := to.value, buf := buf[s.cur := END], cur := s.cur + 1)
            else s.(bracket := b, buf := buf, cur := s.cur + 1)
  {
  }

  /** A round of the loop behind it. */
  method Round(uri: array<char>, s: Scan) returns (t: Scan)
    requires !AtEnd(On(s, uri)) && s.mode != Scheme
    modifies uri
    ensures On(t, uri) == Step(old(On(s, uri)))
  {
    StepOn(s, uri[..]);
    var jump;
    t, jump := Switch(s, uri[s.cur]);
    if jump {
      uri[s.cur] := END;
      assert uri[..] == old(uri[..])[s.cur := END];
    }
    t := t.(cur := s.cur + 1);
  }

  /** The C string at p. */
  method StringAt(uri: array<char>, p: nat) returns (t: string)
    ensures t == CStr(uri[..], p)
  {
    t := [];
    var i := p;
    assert [] + CStr(uri[..], p) == CStr(uri[..], p);
    while i < uri.Length && uri[i] != END
      invariant t + CStr(uri[..], i) == CStr(uri[..], p)
      decreases uri.Length - i
    {
      assert t + ([uri[i]] + CStr(uri[..], i + 1)) == (t + [uri[i]]) + CStr(uri[..], i + 1);
      t, i := t + [uri[i]], i + 1;
    }
    assert t + [] == t;
  }

  method TextAt(uri: array<char>, p: Option<nat>) returns (t: Option<string>)
    ensures t == Text(uri[..], p)
  {
    if p.None? {
      return None;
    }
    var text := StringAt(uri, p.value);
    t := Some(text);
  }

  /** What is made of the final state, read from the buffer. */
  method Collect(uri: array<char>, s: Scan) returns (parsed: Option<Parsed>)
    ensures parsed == Finish(On(s, uri))
  {
    if s.mode == Scheme {
      return None;
    }
    var t := s;
    if s.mode == UserOrHost || s.mode == PasswordOrPort {
      t := s.(host := s.username, port := s.password, username := None, password := None);
    }
    var scheme := StringAt(uri, 0);
    var username := TextAt(uri, t.username);
    var password := TextAt(uri, t.password);
    var host := TextAt(uri, t.host);
    var port := TextAt(uri, t.port);
    var path := TextAt(uri, t.path);
    var query := TextAt(uri, t.query);
    var fragment := TextAt(uri, t.fragment);
    parsed := Some(Parsed(scheme, username, password, host, port, Slashed(path), query, fragment));
  }

  /** parse_uri; `s` carries the state variables and the pointers, and its own buffer stays empty. */
  method ParseUri(url: string) returns (parsed: Option<Parsed>)
    ensures parsed == Parse(url)
  {
    var uri := new char[|url| + 1](i => if 0 <= i < |url| then url[i] else END);
    var s := Start(url).(buf := []);
    assert uri[..] == Start(url).buf;
    while s.cur < uri.Length && uri[s.cur] != END
      invariant Run(Start(url)) == Run(On(s, uri))
      decreases uri.Length - s.cur
    {
      if s.mode == Scheme {
        s := SchemeRound(uri, s);
      } else {
        s := Round(uri, s);
      }
    }
    parsed := Collect(uri, s);
  }
}
