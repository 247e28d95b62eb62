/**
 * What `DrmDisplay::FindDisplayResources` and the plane-format search of
 * `Init`/`CheckFormatSupport` read from the kernel, and what they decide.
 *
 * The kernel's query results are values: a connector or plane that could
 * not be fetched is `None`, an encoder that could not be fetched is absent
 * from the encoder map.
 */
module DrmDiscovery {
  import opened Common

  /** The fields of `drmModeModeInfo` the presenter reads. */
  datatype Mode = Mode(hdisplay: nat, vdisplay: nat, vrefresh: nat)

  /** A zeroed `drmModeModeInfo`. */
  const ZeroMode := Mode(0, 0, 0)

  datatype Connector = Connector(id: nat, connected: bool, modes: seq<Mode>, encoderId: nat)

  /**
   * `drmModeGetResources`: the connector list in resource order (each
   * fetched with `drmModeGetConnector`), encoder id to CRTC id, and the CRTC list.
   */
  datatype Resources = Resources(connectors: seq<Option<Connector>>, encoders: map<nat, nat>, crtcs: seq<nat>)

  /** The values of `conn_id_`, `mode_` and `crtc_id_`. */
  datatype Target = Target(conn: nat, mode: Mode, crtc: nat)

  /** A fetched connector that is connected and offers at least one mode. */
  predicate Usable(c: Option<Connector>)
  {
    c.Some? && c.value.connected && |c.value.modes| > 0
  }

  /** The index of the first usable connector, if any. */
  function FirstUsable(cs: seq<Option<Connector>>): (r: Option<nat>)
    ensures r.Some? ==> r.value < |cs| && Usable(cs[r.value])
    ensures r.Some? ==> forall j :: 0 <= j < r.value ==> !Usable(cs[j])
    ensures r.None? <==> forall j :: 0 <= j < |cs| ==> !Usable(cs[j])
  {
    if |cs| == 0 then None
    else if Usable(cs[0]) then Some(0)
    else match FirstUsable(cs[1..])
      case None => None
      case Some(i) => Some(i + 1)
  }

  /** The CRTC of the connector's encoder, when it has one; otherwise `crtc0` is kept. */
  function EncoderCrtc(rs: Resources, c: Connector, crtc0: nat): nat
  {
    if c.encoderId != 0 && c.encoderId in rs.encoders && rs.encoders[c.encoderId] != 0
    then rs.encoders[c.encoderId]
    else crtc0
  }

  /** The new target fields after a scan of `rs`, starting from `t0`. */
  function Discover(rs: Resources, t0: Target): Target
  {
    match FirstUsable(rs.connectors)
    case Some(i) =>
      var c := rs.connectors[i].value;
      Target(c.id, c.modes[0], EncoderCrtc(rs, c, t0.crtc))
    case None =>
      if |rs.crtcs| > 0 then t0.(crtc := rs.crtcs[0]) else t0
  }

  /** The first usable connector wins, whatever the connectors after it are. */
  lemma DiscoverFirstMatch(rs: Resources, t0: Target, i: nat)
    requires i < |rs.connectors| && Usable(rs.connectors[i])
    requires forall j :: 0 <= j < i ==> !Usable(rs.connectors[j])
    ensures var c := rs.connectors[i].value;
      Discover(rs, t0) == Target(c.id, c.modes[0], EncoderCrtc(rs, c, t0.crtc))
  {
  }

  /**
   * Once a connector matched, the CRTC list is never consulted: without an
   * encoder CRTC the old `crtc_id_` stays, however many CRTCs exist.
   */
  lemma NoFallbackAfterMatch(rs: Resources, t0: Target)
    requires FirstUsable(rs.connectors).Some?
    ensures var c := rs.connectors[FirstUsable(rs.connectors).value].value;
      Discover(rs, t0).crtc == (if c.encoderId != 0 && c.encoderId in rs.encoders && rs.encoders[c.encoderId] != 0
                                then rs.encoders[c.encoderId] else t0.crtc)
    ensures Discover(rs, t0).conn != t0.conn ==> Discover(rs, t0).conn == rs.connectors[FirstUsable(rs.connectors).value].value.id
  {
  }

  /** With no usable connector, connector and mode stay, and the first CRTC (if any) is taken. */
  lemma DiscoverFallback(rs: Resources, t0: Target)
    requires forall j :: 0 <= j < |rs.connectors| ==> !Usable(rs.connectors[j])
    ensures Discover(rs, t0).conn == t0.conn && Discover(rs, t0).mode == t0.mode
    ensures Discover(rs, t0).crtc == if |rs.crtcs| > 0 then rs.crtcs[0] else t0.crtc
  {
  }

  /** Unfetchable and disconnected connectors are skipped: the third one is picked. */
  lemma DiscoverSkipsExample()
    ensures var m := Mode(1920, 1080, 60);
      var rs := Resources([None, Some(Connector(31, false, [m], 40)), Some(Connector(32, true, [m, ZeroMode], 41))],
                          map[41 := 50], [50, 51]);
      Discover(rs, Target(0, ZeroMode, 0)) == Target(32, m, 50)
  {
    var m := Mode(1920, 1080, 60);
    var cs := [None, Some(Connector(31, false, [m], 40)), Some(Connector(32, true, [m, ZeroMode], 41))];
    DiscoverFirstMatch(Resources(cs, map[41 := 50], [50, 51]), Target(0, ZeroMode, 0), 2);
  }

  // ---- plane-format search ------------------------------------------------

  /** A fetched plane (`drmModeGetPlane`) that lists `format` among its formats. */
  predicate PlaneLists(p: Option<seq<nat>>, format: nat)
  {
    p.Some? && format in p.value
  }

  predicate AnyPlaneLists(planes: seq<Option<seq<nat>>>, format: nat)
  {
    exists i :: 0 <= i < |planes| && PlaneLists(planes[i], format)
  }

  /** The nested loop with `break` shared by `Init` and `CheckFormatSupport`. */
  method FormatSearch(planes: seq<Option<seq<nat>>>, format: nat) returns (supported: bool)
    ensures supported <==> AnyPlaneLists(planes, format)
  {
    supported := false;
    var i := 0;
    while i < |planes|
      invariant 0 <= i <= |planes|
      invariant !supported ==> forall i' :: 0 <= i' < i ==> !PlaneLists(planes[i'], format)
      invariant supported ==> AnyPlaneLists(planes, format)
    {
      if planes[i].None? {
        i := i + 1;
        continue;
      }
      var formats := planes[i].value;
      var j := 0;
      while j < |formats|
        invariant 0 <= j <= |formats|
        invariant !supported ==> format !in formats[..j]
        invariant supported ==> format in formats
      {
        if formats[j] == format {
          supported := true;
          break;
        }
        j := j + 1;
      }
      if supported {
        assert PlaneLists(planes[i], format);
        break;
      }
      assert formats[..j] == formats;
      i := i + 1;
    }
  }
}
