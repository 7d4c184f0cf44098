/**
 * Login parameters and their rendering into the generic RPC value model
 * (src/client.rs, `LoginType`, `LoginParams`, `ClientConfig`).
 */
module Client {
  import opened Wrappers
  import opened Rpc

  /** How the password travels in the `login` request. */
  datatype LoginType = PLAIN | SHA1 {

    /** The wire name of the login type. */
    function ToStr(): (s: string)
      ensures ParseLoginType(s) == Some(this)
    {
      match this
      case PLAIN => "PLAIN"
      case SHA1 => "SHA1"
    }
  }

  /** The inverse of `LoginType.ToStr`: the login type a wire name stands for, if any. */
  function ParseLoginType(s: string): Option<LoginType>
  {
    if s == "PLAIN" then Some(PLAIN)
    else if s == "SHA1" then Some(SHA1)
    else None
  }

  lemma ToStrInjective(a: LoginType, b: LoginType)
    ensures a.ToStr() == b.ToStr() <==> a == b
  {
    assert ParseLoginType(a.ToStr()) == Some(a);
  }

  /**
   * How to authenticate and how to present the session. The heartbeat is a
   * whole number of seconds, as `Duration::as_secs` reports it.
   */
  datatype LoginParams = LoginParams(
    user: string,
    password: string,
    loginType: LoginType,
    deviceId: string,
    mountPoint: string,
    heartbeatSecs: Option<u64>)
  {
    /** The rendered request: a map with a `login` and an `options` entry. */
    function ToRpcValue(): (r: RpcValue)
      ensures r.Map? && r.entries.Keys == {"login", "options"}
      ensures r.entries["login"] == Map(LoginMap(this))
      ensures r.entries["options"] == Map(OptionsMap(this))
    {
      Map(map["login" := Map(LoginMap(this)), "options" := Map(OptionsMap(this))])
    }

    /**
     * The parameters as far as the rendering shows them: a mount point is not
     * transmitted when a device id is.
     */
    function Normalized(): LoginParams
    {
      if deviceId != "" then this.(mountPoint := "") else this
    }
  }

  /** The `login` sub-map: exactly the user, the password and the login type. */
  function LoginMap(p: LoginParams): (m: map<string, RpcValue>)
    ensures m.Keys == {"user", "password", "type"}
    ensures m["user"] == Str(p.user)
    ensures m["password"] == Str(p.password)
    ensures m["type"] == Str(p.loginType.ToStr())
  {
    map["user" := Str(p.user), "password" := Str(p.password), "type" := Str(p.loginType.ToStr())]
  }

  /**
   * The `device` sub-map: the device id when there is one, regardless of the
   * mount point; otherwise the mount point when there is one; otherwise empty.
   */
  function DeviceMap(p: LoginParams): (m: map<string, RpcValue>)
    ensures p.deviceId != "" ==> m == map["deviceId" := Str(p.deviceId)]
    ensures p.deviceId == "" && p.mountPoint != "" ==> m == map["mountPoint" := Str(p.mountPoint)]
    ensures |m| == (if p.deviceId == "" && p.mountPoint == "" then 0 else 1)
    ensures "mountPoint" in m ==> "deviceId" !in m
  {
    if p.deviceId != "" then map["deviceId" := Str(p.deviceId)]
    else if p.mountPoint != "" then map["mountPoint" := Str(p.mountPoint)]
    else map[]
  }

  /**
   * The `options` sub-map: the idle watchdog timeout (three heartbeats) when a
   * heartbeat is set, and the device sub-map when it is not empty. The map
   * itself is always rendered, even when it has no entries.
   */
  function OptionsMap(p: LoginParams): (m: map<string, RpcValue>)
    ensures m.Keys <= {"idleWatchDogTimeOut", "device"}
    ensures "idleWatchDogTimeOut" in m <==> p.heartbeatSecs.Some?
    ensures p.heartbeatSecs.Some? ==> m["idleWatchDogTimeOut"] == UInt(3 * p.heartbeatSecs.value)
    ensures "device" in m <==> p.deviceId != "" || p.mountPoint != ""
    ensures "device" in m ==> m["device"] == Map(DeviceMap(p)) && |DeviceMap(p)| == 1
  {
    var options :=
      if p.heartbeatSecs.Some? then map["idleWatchDogTimeOut" := UInt(p.heartbeatSecs.value * 3)]
      else map[];
    var device := DeviceMap(p);
    if device != map[] then options["device" := Map(device)] else options
  }

  // ---------------------------------------------------------------------------
  // Reading a rendered request back: the partner of the rendering.
  // ---------------------------------------------------------------------------

  /** The heartbeat an `options` map announces; `None` when the entry is malformed. */
  function ParseHeartbeat(o: map<string, RpcValue>): Option<Option<u64>>
  {
    if "idleWatchDogTimeOut" !in o then Some(None)
    else
      var t := o["idleWatchDogTimeOut"];
      if t.UInt? && t.u % 3 == 0 && t.u / 3 < 0x1_0000_0000_0000_0000 then Some(Some(t.u / 3))
      else None
  }

  /** The (device id, mount point) an `options` map announces; `None` when malformed. */
  function ParseDevice(o: map<string, RpcValue>): Option<(string, string)>
  {
    if "device" !in o then Some(("", ""))
    else
      var d := o["device"];
      if !d.Map? then None
      else if d.entries.Keys == {"deviceId"} && d.entries["deviceId"].Str? && d.entries["deviceId"].s != "" then
        Some((d.entries["deviceId"].s, ""))
      else if d.entries.Keys == {"mountPoint"} && d.entries["mountPoint"].Str? && d.entries["mountPoint"].s != "" then
        Some(("", d.entries["mountPoint"].s))
      else None
  }

  /** The login parameters a rendered request describes, if it is well formed. */
  function ParseLoginRequest(v: RpcValue): Option<LoginParams>
  {
    if !v.Map? || v.entries.Keys != {"login", "options"} then None
    else
      var login := v.entries["login"];
      var options := v.entries["options"];
      if !login.Map? || login.entries.Keys != {"user", "password", "type"} then None
      else if !options.Map? || !(options.entries.Keys <= {"idleWatchDogTimeOut", "device"}) then None
      else
        var l := login.entries;
        if !l["user"].Str? || !l["password"].Str? || !l["type"].Str? then None
        else
          match (ParseLoginType(l["type"].s), ParseHeartbeat(options.entries), ParseDevice(options.entries))
          case (Some(t), Some(hb), Some(dev)) =>
            Some(LoginParams(l["user"].s, l["password"].s, t, dev.0, dev.1, hb))
          case _ => None
  }

  /** Reading the rendering back gives the parameters as far as they are transmitted. */
  lemma {:induction false} RenderRoundTrip(p: LoginParams)
    ensures ParseLoginRequest(p.ToRpcValue()) == Some(p.Normalized())
  {
    var v := p.ToRpcValue();
    var o := OptionsMap(p);
    assert v.entries["options"].entries == o;
    if p.heartbeatSecs.Some? {
      var n: nat := p.heartbeatSecs.value;
      assert o["idleWatchDogTimeOut"] == UInt(3 * n);
      assert (3 * n) / 3 == n && (3 * n) % 3 == 0;
      assert ParseHeartbeat(o) == Some(Some(n));
    } else {
      assert ParseHeartbeat(o) == Some(None);
    }
    if p.deviceId != "" {
      assert o["device"].entries == map["deviceId" := Str(p.deviceId)];
      assert ParseDevice(o) == Some((p.deviceId, ""));
    } else if p.mountPoint != "" {
      assert o["device"].entries == map["mountPoint" := Str(p.mountPoint)];
      assert ParseDevice(o) == Some(("", p.mountPoint));
    } else {
      assert ParseDevice(o) == Some(("", ""));
    }
    assert ParseLoginType(p.loginType.ToStr()) == Some(p.loginType);
  }

  /** Two parameter sets render alike exactly when they agree on everything transmitted. */
  lemma RenderInjective(p: LoginParams, q: LoginParams)
    ensures p.ToRpcValue() == q.ToRpcValue() <==> p.Normalized() == q.Normalized()
  {
    RenderRoundTrip(p);
    RenderRoundTrip(q);
    assert p.Normalized().ToRpcValue() == p.ToRpcValue();
    assert q.Normalized().ToRpcValue() == q.ToRpcValue();
  }

  /**
   * Replacing the password changes the rendering in `login.password` only:
   * the rendered `options` and the other `login` entries are those of the original.
   */
  lemma PasswordOnlyReplaced(p: LoginParams, h: string)
    ensures var v, w := p.(password := h).ToRpcValue(), p.ToRpcValue();
      && v.entries["options"] == w.entries["options"]
      && v.entries["login"].entries == w.entries["login"].entries["password" := Str(h)]
  {
  }

  // ---------------------------------------------------------------------------
  // Defaults.
  // ---------------------------------------------------------------------------

  /** `LoginParams::default`: SHA1 login with a one-minute heartbeat and everything else empty. */
  function DefaultLoginParams(): LoginParams
  {
    LoginParams("", "", SHA1, "", "", Some(60))
  }

  /** The default parameters render with a 180-second watchdog and no device entry. */
  lemma DefaultLoginRendering()
    ensures DefaultLoginParams().ToRpcValue() == Map(map[
      "login" := Map(map["user" := Str(""), "password" := Str(""), "type" := Str("SHA1")]),
      "options" := Map(map["idleWatchDogTimeOut" := UInt(180)])])
  {
  }

  /** The persisted client configuration. */
  datatype ClientConfig = ClientConfig(
    url: string,
    deviceId: Option<string>,
    mount: Option<string>,
    heartbeatInterval: string,
    reconnectInterval: Option<string>)

  /** `default_heartbeat`: the heartbeat a stored configuration without one gets. */
  function DefaultHeartbeat(): string
  {
    "1m"
  }

  /** The fields of a stored configuration as read, before defaults are filled in. */
  datatype StoredConfig = StoredConfig(
    url: string,
    deviceId: Option<string>,
    mount: Option<string>,
    heartbeatInterval: Option<string>,
    reconnectInterval: Option<string>)

  /** Filling in a missing heartbeat interval with `default_heartbeat`, as the field's serde default does. */
  function WithFieldDefaults(s: StoredConfig): (c: ClientConfig)
    ensures c.heartbeatInterval == (if s.heartbeatInterval.Some? then s.heartbeatInterval.value else DefaultHeartbeat())
    ensures c.(heartbeatInterval := "") == ClientConfig(s.url, s.deviceId, s.mount, "", s.reconnectInterval)
  {
    ClientConfig(s.url, s.deviceId, s.mount,
      match s.heartbeatInterval case Some(h) => h case None => DefaultHeartbeat(),
      s.reconnectInterval)
  }

  /** `ClientConfig::default`: the local broker on port 3755, no optional field, the default heartbeat. */
  function DefaultClientConfig(): ClientConfig
  {
    ClientConfig("tcp://localhost:3755", None, None, DefaultHeartbeat(), None)
  }

  /** The default configuration is what a stored record with only the url reads as. */
  lemma DefaultClientConfigIsStoredUrlOnly()
    ensures DefaultClientConfig() == WithFieldDefaults(StoredConfig("tcp://localhost:3755", None, None, None, None))
    ensures DefaultClientConfig().heartbeatInterval == "1m"
  {
  }
}
