/** The options and headers of a request and the Host header that follows the host and port
    options. */
module RequestHost {
  import opened Options
  import opened HeaderMap
  import ReqList

  /** The calls of req_setopt that write the lists.  SetOption is any option but host and port. */
  datatype Step =
    | SetHost(host: string)
    | SetPort(port: string)
    | SetOption(key: string, value: string)
    | SetHeader(key: string, value: string)

  datatype State = State(opt: seq<Entry>, header: seq<Entry>)

  predicate Allowed(step: Step) {
    step.SetOption? ==> !SameKey(step.key, "host") && !SameKey(step.key, "port")
  }

  /** The caller writes the Host header itself. */
  predicate DirectHost(step: Step) {
    step.SetHeader? && SameKey(step.key, "Host")
  }

  function WithPort(host: string, port: Option<string>): string {
    if port.Some? then host + ":" + port.value else host
  }

  function SetHostOf(s: State, host: string): State {
    var opt := Set(s.opt, "host", host);
    State(opt, Set(s.header, "Host", WithPort(host, Get(opt, "port"))))
  }

  function SetPortOf(s: State, port: string): State {
    var opt := Set(s.opt, "port", port);
    var host := Get(opt, "host");
    State(opt, if host.Some? then Set(s.header, "Host", host.value + ":" + port) else s.header)
  }

  function SetOpt(s: State, step: Step): State {
    match step
    case SetHost(host) => SetHostOf(s, host)
    case SetPort(port) => SetPortOf(s, port)
    case SetOption(key, value) => s.(opt := Set(s.opt, key, value))
    case SetHeader(key, value) => s.(header := Set(s.header, key, value))
  }

  function Run(s: State, steps: seq<Step>): State {
    if steps == [] then s else SetOpt(Run(s, steps[..|steps| - 1]), steps[|steps| - 1])
  }

  /** What the Host header has to be: the host, with the port if there is one. */
  function HostFor(s: State): Option<string> {
    var host := Get(s.opt, "host");
    if host.None? then None else Some(WithPort(host.value, Get(s.opt, "port")))
  }

  ghost predicate Distinct(s: State) {
    DistinctKeys(s.opt) && DistinctKeys(s.header)
  }

  ghost predicate HostAgrees(s: State) {
    Get(s.header, "Host") == HostFor(s)
  }

  lemma HostIsNotPort()
    ensures !SameKey("host", "port") && !SameKey("port", "host")
  {
    assert Lower("host")[0] == 'h' && Lower("port")[0] == 'p';
  }

  lemma SetOptKeepsDistinct(s: State, step: Step)
    requires Distinct(s)
    ensures Distinct(SetOpt(s, step))
  {
    match step {
      case SetHost(host) =>
        SetKeepsDistinct(s.opt, "host", host);
        SetKeepsDistinct(s.header, "Host", WithPort(host, Get(Set(s.opt, "host", host), "port")));
      case SetPort(port) =>
        SetKeepsDistinct(s.opt, "port", port);
        var host := Get(Set(s.opt, "port", port), "host");
        SetKeepsDistinct(s.header, "Host", if host.Some? then host.value + ":" + port else "");
      case SetOption(key, value) => SetKeepsDistinct(s.opt, key, value);
      case SetHeader(key, value) => SetKeepsDistinct(s.header, key, value);
    }
  }

  /** Setting the host makes the header agree, whatever it was before. */
  lemma SetHostAgrees(s: State, host: string)
    requires Distinct(s)
    ensures HostAgrees(SetHostOf(s, host))
    ensures Get(SetHostOf(s, host).opt, "host") == Some(host)
    ensures Get(SetHostOf(s, host).opt, "port") == Get(s.opt, "port")
  {
    HostIsNotPort();
    GetSet(s.opt, "host", host, "host");
    GetSet(s.opt, "host", host, "port");
    GetSet(s.header, "Host", WithPort(host, Get(s.opt, "port")), "Host");
  }

  lemma SetPortAgrees(s: State, port: string)
    requires Distinct(s) && HostAgrees(s)
    ensures HostAgrees(SetPortOf(s, port))
    ensures Get(SetPortOf(s, port).opt, "port") == Some(port)
    ensures Get(SetPortOf(s, port).opt, "host") == Get(s.opt, "host")
  {
    HostIsNotPort();
    GetSet(s.opt, "port", port, "host");
    GetSet(s.opt, "port", port, "port");
    var host := Get(s.opt, "host");
    GetSet(s.header, "Host", if host.Some? then host.value + ":" + port else "", "Host");
  }

  /** One call keeps the Host header right, unless it writes another value over it. */
  lemma StepAgrees(s: State, step: Step)
    requires Distinct(s) && HostAgrees(s) && Allowed(step)
    ensures HostAgrees(SetOpt(s, step)) <==> DirectHost(step) ==> HostFor(s) == Some(step.value)
  {
    match step {
      case SetHost(host) => SetHostAgrees(s, host);
      case SetPort(port) => SetPortAgrees(s, port);
      case SetOption(key, value) =>
        GetSet(s.opt, key, value, "host");
        GetSet(s.opt, key, value, "port");
      case SetHeader(key, value) => GetSet(s.header, key, value, "Host");
    }
  }

  /** Over every run that does not write the header directly, Host is the current host with the
      current port, and is absent as long as no host is set. */
  lemma {:induction false} RunAgrees(s: State, steps: seq<Step>)
    requires Distinct(s) && HostAgrees(s)
    requires forall i :: 0 <= i < |steps| ==> Allowed(steps[i]) && !DirectHost(steps[i])
    ensures Distinct(Run(s, steps)) && HostAgrees(Run(s, steps))
  {
    if steps != [] {
      var before := Run(s, steps[..|steps| - 1]);
      RunAgrees(s, steps[..|steps| - 1]);
      SetOptKeepsDistinct(before, steps[|steps| - 1]);
      StepAgrees(before, steps[|steps| - 1]);
    }
  }

  /** What each call writes: the option or header it names, with its value; for the host and the port
      also the Host header, once there is a host; and nothing else. */
  lemma StepWrites(s: State, step: Step, key: string)
    requires Distinct(s)
    ensures var s' := SetOpt(s, step);
      match step
      case SetHeader(k, v) =>
        Get(s'.header, key) == (if SameKey(k, key) then Some(v) else Get(s.header, key)) && s'.opt == s.opt
      case SetOption(k, v) =>
        Get(s'.opt, key) == (if SameKey(k, key) then Some(v) else Get(s.opt, key)) && s'.header == s.header
      case SetHost(v) =>
        && Get(s'.opt, key) == (if SameKey("host", key) then Some(v) else Get(s.opt, key))
        && (!SameKey("Host", key) ==> Get(s'.header, key) == Get(s.header, key))
      case SetPort(v) =>
        && Get(s'.opt, key) == (if SameKey("port", key) then Some(v) else Get(s.opt, key))
        && (!SameKey("Host", key) || Get(s'.opt, "host").None? ==> Get(s'.header, key) == Get(s.header, key))
  {
    match step
    case SetHeader(k, v) => GetSet(s.header, k, v, key);
    case SetOption(k, v) => GetSet(s.opt, k, v, key);
    case SetHost(v) =>
      GetSet(s.opt, "host", v, key);
      GetSet(s.header, "Host", WithPort(v, Get(Set(s.opt, "host", v), "port")), key);
    case SetPort(v) =>
      GetSet(s.opt, "port", v, key);
      var host := Get(Set(s.opt, "port", v), "host");
      if host.Some? {
        GetSet(s.header, "Host", host.value + ":" + v, key);
      }
  }

  class Request {
    const opt: ReqList.List
    const header: ReqList.List

    ghost function Repr(): set<object>
      reads this, opt, header
    {
      {this, opt, header, opt.root, header.root}
      + (set n | n in opt.nodes) + (set n | n in header.nodes)
    }

    ghost predicate Valid()
      reads this, opt, header, opt.root, header.root, opt.nodes, header.nodes
    {
      && opt != header && opt.Valid() && header.Valid()
      && opt.root != header.root
      && opt.root !in header.nodes && header.root !in opt.nodes
      && forall n :: n in opt.nodes ==> n !in header.nodes
    }

    ghost function Value(): State
      reads this, opt, header
    {
      State(opt.items, header.items)
    }

    constructor ()
      ensures Valid() && Value() == State([], [])
    {
      opt := new ReqList.List();
      header := new ReqList.List();
    }

    method SetInOpt(key: string, value: string)
      requires Valid()
      modifies Repr()
      ensures Valid() && Value() == State(Set(old(opt.items), key, value), old(header.items))
      ensures fresh(Repr() - old(Repr()))
    {
      assert forall i :: 0 <= i < |header.nodes| ==> header.nodes[i] !in opt.nodes;
      opt.SetKey(key, value);
      assert forall i :: 0 <= i < |header.nodes| ==> unchanged(header.nodes[i]);
    }

    method SetInHeader(key: string, value: string)
      requires Valid()
      modifies Repr()
      ensures Valid() && Value() == State(old(opt.items), Set(old(header.items), key, value))
      ensures fresh(Repr() - old(Repr()))
    {
      assert forall i :: 0 <= i < |opt.nodes| ==> opt.nodes[i] !in header.nodes;
      header.SetKey(key, value);
      assert forall i :: 0 <= i < |opt.nodes| ==> unchanged(opt.nodes[i]);
    }

    method SetHost(host: string)
      requires Valid()
      modifies Repr()
      ensures Valid() && Value() == SetHostOf(old(Value()), host)
    {
      SetInOpt("host", host);
      var port := opt.GetKey("port");
      if port.Some? {
        SetInHeader("Host", host + ":" + port.value);
      } else {
        SetInHeader("Host", host);
      }
    }

    method SetPort(port: string)
      requires Valid()
      modifies Repr()
      ensures Valid() && Value() == SetPortOf(old(Value()), port)
    {
      SetInOpt("port", port);
      var host := opt.GetKey("host");
      if host.Some? {
        SetInHeader("Host", host.value + ":" + port);
      }
    }

    /** The calls of req_setopt that write the lists. */
    method Apply(step: Step)
      requires Valid()
      modifies Repr()
      ensures Valid() && Value() == SetOpt(old(Value()), step)
    {
      match step
      case SetHost(host) => SetHost(host);
      case SetPort(port) => SetPort(port);
      case SetOption(key, value) => SetInOpt(key, value);
      case SetHeader(key, value) => SetInHeader(key, value);
    }
  }
}
