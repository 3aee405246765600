/** The websocket `ConnectionManager`: two ordered lists of live client
    handles (web clients and esp8266 devices) with connect, disconnect and
    a failure-isolated broadcast to each list.

    A handle is any value compared with `==`, as Python compares the
    websocket objects held in the lists. Whether a send to a handle fails
    is an oracle `fails` supplied by the caller: the network is not part
    of this model. */
module ConnectionManager {
  import opened Wrappers
  import opened Lists

  /** The client type that selects the esp8266 list; every other string,
      the default `"web"` included, selects the web list. */
  const Esp8266: string := "esp8266"
  const Web: string := "web"

  /** `active_connections` is `web`, `esp8266_connections` is `esp`. */
  datatype Registry<H> = Registry(web: seq<H>, esp: seq<H>)

  /** One `send_text` attempt and whether it went through. */
  datatype Attempt<H> = Attempt(conn: H, delivered: bool)

  predicate IsEsp8266(clientType: string)
  {
    clientType == Esp8266
  }

  /** The list that `clientType` selects. */
  function Selected<H>(reg: Registry<H>, clientType: string): (conns: seq<H>)
  {
    if IsEsp8266(clientType) then reg.esp else reg.web
  }

  /** The list that `clientType` does not select. */
  function Other<H>(reg: Registry<H>, clientType: string): (conns: seq<H>)
  {
    if IsEsp8266(clientType) then reg.web else reg.esp
  }

  /** `reg` with the list that `clientType` selects replaced by `conns`. */
  function WithSelected<H>(reg: Registry<H>, clientType: string, conns: seq<H>): (r: Registry<H>)
    ensures Selected(r, clientType) == conns
    ensures Other(r, clientType) == Other(reg, clientType)
  {
    if IsEsp8266(clientType) then reg.(esp := conns) else reg.(web := conns)
  }

  /** The default client type `"web"` of `connect` and `disconnect` selects
      the web list. */
  lemma DefaultTypeSelectsWeb<H>(reg: Registry<H>)
    ensures Selected(reg, Web) == reg.web && Other(reg, Web) == reg.esp
  {
  }

  /** `connect`: appends the handle at the end of the selected list. The
      `accept()` handshake and the log line are not modelled. */
  function Connect<H>(reg: Registry<H>, ws: H, clientType: string): (r: Registry<H>)
    ensures IsEsp8266(clientType) ==> r.esp == reg.esp + [ws] && r.web == reg.web
    ensures !IsEsp8266(clientType) ==> r.web == reg.web + [ws] && r.esp == reg.esp
  {
    WithSelected(reg, clientType, Selected(reg, clientType) + [ws])
  }

  /** `disconnect`: removes the first occurrence of the handle from the
      selected list when it is there, and changes nothing otherwise. */
  function Disconnect<H(==)>(reg: Registry<H>, ws: H, clientType: string): (r: Registry<H>)
    ensures Other(r, clientType) == Other(reg, clientType)
    ensures ws !in Selected(reg, clientType) ==> r == reg
    ensures ws in Selected(reg, clientType) ==>
              var conns := Selected(reg, clientType);
              var i := FirstIndex(conns, ws);
              Selected(r, clientType) == conns[..i] + conns[i + 1..]
  {
    var conns := Selected(reg, clientType);
    if ws in conns then
      RemoveFirstIsSplice(conns, ws);
      WithSelected(reg, clientType, RemoveFirst(conns, ws).value)
    else reg
  }

  /** Connecting a new handle and disconnecting it again restores the
      registry. */
  lemma ConnectDisconnectRoundTrip<H>(reg: Registry<H>, ws: H, clientType: string)
    requires ws !in Selected(reg, clientType)
    ensures Disconnect(Connect(reg, ws, clientType), ws, clientType) == reg
  {
    RemoveFirstOfAppended(Selected(reg, clientType), ws);
  }

  /** Disconnecting a handle held at most once a second time changes
      nothing: after the first call it is gone from the list. */
  lemma DisconnectIdempotent<H>(reg: Registry<H>, ws: H, clientType: string)
    requires multiset(Selected(reg, clientType))[ws] <= 1
    ensures ws !in Selected(Disconnect(reg, ws, clientType), clientType)
    ensures Disconnect(Disconnect(reg, ws, clientType), ws, clientType)
            == Disconnect(reg, ws, clientType)
  {
    var conns := Selected(reg, clientType);
    if ws in conns {
      RemoveFirstMultiset(conns, ws);
      assert multiset(Selected(Disconnect(reg, ws, clientType), clientType))[ws] == 0;
    }
  }

  /** The sending loop of `broadcast_to_*`: one `send_text` per handle, in
      list order, each failure appended to `disconnected` without stopping
      the loop. */
  method SendSweep<H>(conns: seq<H>, fails: H -> bool)
    returns (disconnected: seq<H>, attempts: seq<Attempt<H>>)
    ensures |attempts| == |conns|
    ensures forall i :: 0 <= i < |conns| ==> attempts[i] == Attempt(conns[i], !fails(conns[i]))
    ensures disconnected == Filter(fails, conns)
  {
    disconnected, attempts := [], [];
    var i := 0;
    while i < |conns|
      invariant 0 <= i <= |conns|
      invariant |attempts| == i
      invariant forall j :: 0 <= j < i ==> attempts[j] == Attempt(conns[j], !fails(conns[j]))
      invariant disconnected == Filter(fails, conns[..i])
    {
      var conn := conns[i];
      var ok := !fails(conn);
      assert conns[..i + 1] == conns[..i] + [conn];
      FilterSnoc(fails, conns[..i], conn);
      attempts := attempts + [Attempt(conn, ok)];
      if !ok {
        disconnected := disconnected + [conn];
      }
      i := i + 1;
    }
    assert conns[..i] == conns;
  }

  /** One broadcast over one list: every handle gets exactly one attempt,
      in order, whatever happened to the earlier ones; afterwards the list
      holds exactly the handles whose send succeeded, in their original
      order. The removal pass never raises `ValueError`. */
  method BroadcastList<H(==)>(conns: seq<H>, fails: H -> bool)
    returns (remaining: seq<H>, attempts: seq<Attempt<H>>)
    ensures |attempts| == |conns|
    ensures forall i :: 0 <= i < |conns| ==> attempts[i] == Attempt(conns[i], !fails(conns[i]))
    ensures remaining == Filter(Negate(fails), conns)
  {
    if conns == [] {
      remaining, attempts := conns, [];
    } else {
      var disconnected;
      disconnected, attempts := SendSweep(conns, fails);
      RemoveFailedIsFilter(fails, conns);
      remaining := RemoveEach(conns, disconnected).value;
    }
  }

  /** `broadcast_to_esp8266`: the esp8266 list loses exactly the handles
      whose send failed; the web list is untouched. */
  method BroadcastToEsp8266<H(==)>(reg: Registry<H>, fails: H -> bool)
    returns (r: Registry<H>, attempts: seq<Attempt<H>>)
    ensures r.web == reg.web
    ensures r.esp == Filter(Negate(fails), reg.esp)
    ensures |attempts| == |reg.esp|
    ensures forall i :: 0 <= i < |reg.esp| ==> attempts[i] == Attempt(reg.esp[i], !fails(reg.esp[i]))
  {
    var remaining;
    remaining, attempts := BroadcastList(reg.esp, fails);
    r := reg.(esp := remaining);
  }

  /** `broadcast_to_web`: the web list loses exactly the handles whose
      send failed; the esp8266 list is untouched. */
  method BroadcastToWeb<H(==)>(reg: Registry<H>, fails: H -> bool)
    returns (r: Registry<H>, attempts: seq<Attempt<H>>)
    ensures r.esp == reg.esp
    ensures r.web == Filter(Negate(fails), reg.web)
    ensures |attempts| == |reg.web|
    ensures forall i :: 0 <= i < |reg.web| ==> attempts[i] == Attempt(reg.web[i], !fails(reg.web[i]))
  {
    var remaining;
    remaining, attempts := BroadcastList(reg.web, fails);
    r := reg.(web := remaining);
  }
}
