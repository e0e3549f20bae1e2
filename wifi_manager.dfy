/**
 * The connectivity and provisioning manager (src/wifi_manager.cpp): it boots
 * into station mode with the credentials kept in non-volatile storage, falls
 * back to an access point with a configuration page and a captive-portal DNS
 * server, saves the credentials the page posts, and on every tick either
 * hands the access point over to a station link that came up, restarts after
 * the access-point timeout, or retries a lost station link at most once per
 * reconnect interval.
 *
 * The radio, the clock and the storage are inputs: `linkUp` is the value
 * `WiFi.status() == WL_CONNECTED` reads at that moment, `linkAt(i)` the value
 * of the i-th such read during `connect`, `now` the value `millis()` returns,
 * and the outcomes of `preferences.begin`, `WiFi.softAP` and the DNS server's
 * UDP bind are booleans.
 */
module WifiManager {
  import opened Arduino
  import DnsServer

  /** `reconnect_interval`, in milliseconds. */
  const ReconnectInterval: nat := 10000

  /** The number of waits `connect` makes at most before its last status read. */
  const MaxConnectAttempts: nat := 40

  /** The UDP port the captive-portal DNS server listens on. */
  const DnsPort: nat := 53

  // ---------------------------------------------------------------------------
  // Non-volatile storage: the "wifi_config" namespace of `Preferences`.

  datatype NvsValue = Text(text: string) | Number(number: nat)

  type Store = map<string, NvsValue>

  const SsidKey: string := "ssid"
  const PasswordKey: string := "password"
  const SavedTimeKey: string := "saved_time"

  datatype Credentials = Credentials(ssid: string, password: string)

  /** `getString(key, "")`: the text stored under `key`, or "" when there is none. */
  function GetString(store: Store, key: string): string
  {
    if key in store && store[key].Text? then store[key].text else ""
  }

  /**
   * The credentials `loadConfigFromNVS` accepts: none without an `ssid` key
   * or with an empty one; the password defaults to "".
   */
  function StoredCredentials(store: Store): (r: Option<Credentials>)
    ensures r.Some? <==> GetString(store, SsidKey) != ""
    ensures r.Some? ==> r.value.ssid == GetString(store, SsidKey) && r.value.password == GetString(store, PasswordKey)
  {
    if SsidKey in store && GetString(store, SsidKey) != "" then
      Some(Credentials(GetString(store, SsidKey), GetString(store, PasswordKey)))
    else None
  }

  /**
   * The store after `saveConfigToNVS(s, p)` at clock reading `now`. Loading
   * from it gives back exactly `s` and `p` when `s` is not empty, and every
   * other key keeps its value.
   */
  function AfterSave(store: Store, s: string, p: string, now: Millis): (r: Store)
    ensures s != "" ==> StoredCredentials(r) == Some(Credentials(s, p))
    ensures s == "" ==> StoredCredentials(r) == None
    ensures SavedTimeKey in r && r[SavedTimeKey] == Number(now)
    ensures r.Keys == store.Keys + {SsidKey, PasswordKey, SavedTimeKey}
    ensures forall k :: k in store && k != SsidKey && k != PasswordKey && k != SavedTimeKey ==> r[k] == store[k]
  {
    store[SsidKey := Text(s)][PasswordKey := Text(p)][SavedTimeKey := Number(now)]
  }

  // ---------------------------------------------------------------------------
  // The body of a POST to /api/save.

  const SsidMarker: string := "\"ssid\":\""
  const PasswordMarker: string := "\"password\":\""

  /**
   * The value `handleSaveConfig` takes for the field announced by `marker`:
   * the text from just after the first occurrence of the marker up to the
   * next quote, or to the end of the body. When the marker is missing,
   * `indexOf` yields -1 and the text is taken from offset |marker| - 1 instead.
   */
  function ExtractField(body: ArduinoString, marker: string): (field: string)
    requires marker != ""
    ensures '"' !in field
    ensures var start := IndexOf(body, marker) + |marker|;
      if start <= |body| then
        && start + |field| <= |body|
        && body[start..start + |field|] == field
        && (start + |field| == |body| || body[start + |field|] == '"')
      else field == ""
  {
    var start := IndexOf(body, marker) + |marker|;
    var end := IndexOfFrom(body, "\"", start);
    QuoteSearch(body, start);
    Substring(body, start, AsUnsigned(end))
  }

  /** The search for a quote from `from` on finds the first quote, and skips none. */
  lemma QuoteSearch(s: string, from: nat)
    ensures var end := IndexOfFrom(s, "\"", from);
      && (end != -1 ==> s[end] == '"')
      && forall i :: from <= i < |s| && (end == -1 || i < end) ==> s[i] != '"'
  {
    var end := IndexOfFrom(s, "\"", from);
    forall i | from <= i < |s| && (end == -1 || i < end)
      ensures s[i] != '"'
    {
      assert !OccursAt(s, "\"", i);
      assert s[i..i + 1] == [s[i]];
    }
    if end != -1 {
      assert OccursAt(s, "\"", end);
      assert s[end] == s[end..end + 1][0];
    }
  }

  /** The ssid and password `handleSaveConfig` reads from a request body. */
  function ParseSaveBody(body: ArduinoString): (c: Credentials)
    ensures '"' !in c.ssid && '"' !in c.password
    ensures c.ssid == ExtractField(body, SsidMarker) && c.password == ExtractField(body, PasswordMarker)
  {
    Credentials(ExtractField(body, SsidMarker), ExtractField(body, PasswordMarker))
  }

  /**
   * The body the configuration page posts: `JSON.stringify({ssid, password})`,
   * which is this text whenever neither string holds a quote, a backslash or
   * a control character.
   */
  function SaveBody(c: Credentials): string
  {
    "{" + SsidMarker + c.ssid + "\"," + PasswordMarker + c.password + "\"}"
  }

  /** The page's body parses back to the credentials it was built from. */
  lemma {:induction false} ParseSaveBodyRoundTrip(c: Credentials)
    requires '"' !in c.ssid && '"' !in c.password
    requires |SaveBody(c)| < ClockModulus
    ensures ParseSaveBody(SaveBody(c)) == c
  {
    var s, p := c.ssid, c.password;
    var body: ArduinoString := SaveBody(c);
    var q := 9 + |s|;
    assert body[..9] == "{" + SsidMarker;
    assert body[9..q] == s;
    assert body[q..q + 14] == "\"," + PasswordMarker;
    assert body[q + 14..|body| - 2] == p;
    assert body[|body| - 2..] == "\"}";
    assert |body| == q + 16 + |p|;
    // the ssid marker first occurs at offset 1
    assert OccursAt(body, SsidMarker, 1);
    assert !OccursAt(body, SsidMarker, 0) by { assert body[0] == '{'; }
    assert IndexOf(body, SsidMarker) == 1;
    // the password marker first occurs at offset q + 2
    assert OccursAt(body, PasswordMarker, q + 2);
    forall i | 0 <= i < q + 2
      ensures !OccursAt(body, PasswordMarker, i)
    {
      NoPasswordMarkerBefore(c, body, i);
    }
    assert IndexOf(body, PasswordMarker) == q + 2;
    ExtractedUpToQuote(body, SsidMarker, 9, s);
    ExtractedUpToQuote(body, PasswordMarker, q + 14, p);
  }

  /** No occurrence of the password marker starts inside the ssid part of the page's body. */
  lemma NoPasswordMarkerBefore(c: Credentials, body: string, i: nat)
    requires '"' !in c.ssid
    requires body == SaveBody(c) && i < 11 + |c.ssid|
    ensures !OccursAt(body, PasswordMarker, i)
  {
    var s, q := c.ssid, 9 + |c.ssid|;
    var head, tail := "{" + SsidMarker, "\"," + PasswordMarker;
    assert body[..9] == head && body[9..q] == s && body[q..q + 14] == tail;
    if i < 8 {
      assert body[i + 1] == head[i + 1];
      Mismatch(body, PasswordMarker, i, 1);
    } else if i == 8 && (q == 15 || q == 17) {
      assert body[18] == tail[18 - q];
      Mismatch(body, PasswordMarker, i, 10);
    } else if i == 8 {
      if q < 17 {
        assert body[17] == tail[17 - q];
      } else {
        assert body[17] == s[8];
      }
      Mismatch(body, PasswordMarker, i, 9);
    } else if i < q {
      assert body[i] == s[i - 9];
      Mismatch(body, PasswordMarker, i, 0);
    } else {
      assert body[q + 1] == tail[1];
      Mismatch(body, PasswordMarker, i, q + 1 - i);
    }
  }

  /** A pattern does not occur where one of its characters is missing. */
  lemma Mismatch(s: string, pattern: string, i: nat, k: nat)
    requires k < |pattern|
    requires i + |pattern| <= |s| ==> s[i + k] != pattern[k]
    ensures !OccursAt(s, pattern, i)
  {
    if i + |pattern| <= |s| {
      assert s[i..i + |pattern|][k] == s[i + k];
    }
  }

  /** A field whose marker ends at `start` and that is followed by a quote is extracted whole. */
  lemma ExtractedUpToQuote(body: ArduinoString, marker: string, start: nat, field: string)
    requires marker != "" && IndexOf(body, marker) + |marker| == start
    requires start + |field| < |body|
    requires body[start..start + |field|] == field && '"' !in field && body[start + |field|] == '"'
    ensures ExtractField(body, marker) == field
  {
  }

  /** A body without the ssid marker still yields an ssid: `{"network":"home"}` gives "rk" and an empty password. */
  lemma MissingMarkerExample()
    ensures ParseSaveBody(NetworkBody) == Credentials("rk", "")
  {
    var body := NetworkBody;
    NetworkBodyHasNoMarkers();
    assert body[7] == 'r' && body[8] == 'k' && body[9] == '"' && body[11] == '"';
    assert body[7..9] == "rk";
    ExtractedUpToQuote(body, SsidMarker, 7, "rk");
    ExtractedUpToQuote(body, PasswordMarker, 11, "");
  }

  /** A body that names some other field. */
  const NetworkBody: ArduinoString := "{\"network\":\"home\"}"

  lemma NetworkBodyHasNoMarkers()
    ensures IndexOf(NetworkBody, SsidMarker) == -1 && IndexOf(NetworkBody, PasswordMarker) == -1
  {
    var body := NetworkBody;
    assert 's' !in body && 'p' !in body;
    forall i | 0 <= i < |body|
      ensures !OccursAt(body, SsidMarker, i) && !OccursAt(body, PasswordMarker, i)
    {
      if i + 1 < |body| {
        assert body[i + 1] in body;
      }
      Mismatch(body, SsidMarker, i, 1);
      Mismatch(body, PasswordMarker, i, 1);
    }
  }

  // ---------------------------------------------------------------------------
  // Timing.

  /** Whether `handleReconnect` retries a lost station link last retried at `last`. */
  predicate ReconnectDue(last: Millis, now: Millis)
  {
    Elapsed(last, now) >= ReconnectInterval
  }

  /** Whether the access point started at `start` has outlived `timeout`. */
  predicate ApExpired(start: Millis, now: Millis, timeout: Millis)
  {
    Elapsed(start, now) > timeout
  }

  /** Within one wrap of the clock, a retry is due exactly when a full interval has really passed. */
  lemma ReconnectDueExactly(t0: nat, t1: nat)
    requires t0 <= t1 < t0 + ClockModulus
    ensures ReconnectDue(ClockAt(t0), ClockAt(t1)) <==> t1 - t0 >= ReconnectInterval
  {
    ElapsedBetween(t0, t1);
  }

  /** Within one wrap of the clock, the access point expires exactly when more than `timeout` has really passed. */
  lemma ApExpiredExactly(t0: nat, t1: nat, timeout: Millis)
    requires t0 <= t1 < t0 + ClockModulus
    ensures ApExpired(ClockAt(t0), ClockAt(t1), timeout) <==> t1 - t0 > timeout
  {
    ElapsedBetween(t0, t1);
  }

  // ---------------------------------------------------------------------------
  // connect(): WiFi.begin, then up to 40 waits of 500 ms while the status
  // reads "not connected", then one more status read that decides.

  /**
   * The number of waits `connect` makes when the status reads `linkAt(0)`,
   * `linkAt(1)`, ...: the loop reads the status once per pass and stops at
   * the first read that shows a link, or after 40 waits.
   */
  function AttemptsMade(linkAt: nat -> bool, from: nat): (n: nat)
    requires from <= MaxConnectAttempts
    ensures from <= n <= MaxConnectAttempts
    ensures forall i :: from <= i < n ==> !linkAt(i)
    ensures n < MaxConnectAttempts ==> linkAt(n)
    decreases MaxConnectAttempts - from
  {
    if linkAt(from) || from == MaxConnectAttempts then from
    else AttemptsMade(linkAt, from + 1)
  }

  /**
   * Whether `connect` succeeds: the read after the loop, the (n+1)-th after
   * n waits, shows a link. It never succeeds without a link among the first
   * 42 reads, and a link that stays up once it is up is found exactly when
   * it comes up within those reads.
   */
  predicate ConnectSucceeds(linkAt: nat -> bool): (ok: bool)
    ensures ok ==> exists i: nat :: i <= MaxConnectAttempts + 1 && linkAt(i)
    ensures (forall i: nat, j: nat :: i <= j && linkAt(i) ==> linkAt(j)) ==>
      (ok <==> exists i: nat :: i <= MaxConnectAttempts + 1 && linkAt(i))
  {
    var n := AttemptsMade(linkAt, 0);
    LastReadDecides(linkAt, n);
    linkAt(n + 1)
  }

  /** The read after `n` waits is among the first 42, and a stable link up by then shows in it. */
  lemma LastReadDecides(linkAt: nat -> bool, n: nat)
    requires n == AttemptsMade(linkAt, 0)
    ensures linkAt(n + 1) ==> exists i: nat :: i <= MaxConnectAttempts + 1 && linkAt(i)
    ensures (forall i: nat, j: nat :: i <= j && linkAt(i) ==> linkAt(j)) ==>
      ((exists i: nat :: i <= MaxConnectAttempts + 1 && linkAt(i)) ==> linkAt(n + 1))
  {
    if (forall i: nat, j: nat :: i <= j && linkAt(i) ==> linkAt(j))
       && (exists i: nat :: i <= MaxConnectAttempts + 1 && linkAt(i))
    {
      var i: nat :| i <= MaxConnectAttempts + 1 && linkAt(i);
      if n < MaxConnectAttempts {
        assert linkAt(n);
      } else {
        assert n <= i;
      }
    }
  }

  /**
   * The real times, among `handleReconnect` ticks at real times `ticks` in
   * station mode with the link down, at which a retry is made, the last one
   * having been made at `last`: a tick retries exactly when `ReconnectDue`
   * holds, and a retry moves the retry time to that tick.
   */
  function RetryTimes(last: nat, ticks: seq<nat>): seq<nat>
    decreases |ticks|
  {
    if ticks == [] then []
    else if ReconnectDue(ClockAt(last), ClockAt(ticks[0])) then [ticks[0]] + RetryTimes(ticks[0], ticks[1..])
    else RetryTimes(last, ticks[1..])
  }

  /** The retries are the firings of a re-armed timer with a gap of 10000 ms. */
  lemma {:induction false} RetryTimesAreFirings(last: nat, ticks: seq<nat>)
    ensures RetryTimes(last, ticks) == Firings(last, ticks, ReconnectInterval)
    decreases |ticks|
  {
    if ticks != [] {
      RetryTimesAreFirings(ticks[0], ticks[1..]);
      RetryTimesAreFirings(last, ticks[1..]);
    }
  }

  /**
   * A station that keeps losing its link retries only at ticks, never
   * within 10000 ms of the previous retry, however often the clock wraps.
   */
  lemma RetriesSpaced(last: nat, ticks: seq<nat>)
    requires Ascending(last, ticks)
    ensures var r := RetryTimes(last, ticks);
      && (forall i :: 0 <= i < |r| ==> r[i] in ticks)
      && (r != [] ==> last + ReconnectInterval <= r[0])
      && (forall i :: 0 < i < |r| ==> r[i - 1] + ReconnectInterval <= r[i])
  {
    RetryTimesAreFirings(last, ticks);
    FiringsSpaced(last, ticks, ReconnectInterval);
  }

  /** An HTTP reply: its status code and its JSON body. */
  datatype Response = Response(code: nat, body: string)

  const MissingBody: Response := Response(400, "{\"success\":false}")
  const EmptySsid: Response := Response(400, "{\"success\":false,\"message\":\"Empty\"}")
  const SavedReply: Response := Response(200, "{\"success\":true}")

  /** What one `handleReconnect` tick does besides updating the fields. */
  datatype TickAction = NoAction | StopAccessPoint | Restart | Reconnect

  class WiFiManager {
    var ssid: string
    var password: string
    var isStaConnected: bool
    var isApMode: bool
    var apStartTime: Millis
    var lastReconnectTime: Millis
    /** Whether the configuration web server exists (`web_server != nullptr`). */
    var webServerUp: bool
    /** Whether `preferences.begin` has succeeded; the store refuses every operation before that. */
    var nvsOpen: bool
    var nvs: Store
    const dns: DnsServer.DNSServer
    /** The sizes of the `ssid` and `password` character arrays, terminator included. */
    const ssidCapacity: nat
    const passwordCapacity: nat
    /** `ap_timeout`, in milliseconds. */
    const apTimeout: Millis
    /** `AP_IP`, the access point's own address, which the DNS server hands out. */
    const apIP: IPv4

    /** The credential buffers always keep their terminator. */
    ghost predicate Valid()
      reads this
    {
      1 <= ssidCapacity && 1 <= passwordCapacity && |ssid| < ssidCapacity && |password| < passwordCapacity
    }

    /** The global manager at boot, over the flash contents `stored`. */
    constructor (ssidCapacity: nat, passwordCapacity: nat, apTimeout: Millis, apIP: IPv4, stored: Store)
      requires 1 <= ssidCapacity && 1 <= passwordCapacity
      ensures Valid()
      ensures this.ssidCapacity == ssidCapacity && this.passwordCapacity == passwordCapacity
      ensures this.apTimeout == apTimeout && this.apIP == apIP
      ensures ssid == "" && password == ""
      ensures !isStaConnected && !isApMode && apStartTime == 0 && lastReconnectTime == 0
      ensures !webServerUp && !nvsOpen && nvs == stored
      ensures fresh(dns) && !dns.started
    {
      this.ssidCapacity, this.passwordCapacity := ssidCapacity, passwordCapacity;
      this.apTimeout, this.apIP := apTimeout, apIP;
      ssid, password := "", "";
      isStaConnected, isApMode := false, false;
      apStartTime, lastReconnectTime := 0, 0;
      webServerUp, nvsOpen, nvs := false, false, stored;
      dns := new DnsServer.DNSServer();
    }

    /** The credentials `loadConfigFromNVS` would accept now. */
    function Saved(): Option<Credentials>
      reads this
    {
      if nvsOpen then StoredCredentials(nvs) else None
    }

    /** The two `strncpy` calls into the `ssid` and `password` buffers. */
    method CopyCredentials(s: string, p: string)
      requires Valid()
      modifies this
      ensures Valid()
      ensures ssid == Truncate(s, ssidCapacity - 1) && password == Truncate(p, passwordCapacity - 1)
      ensures isStaConnected == old(isStaConnected) && isApMode == old(isApMode)
      ensures apStartTime == old(apStartTime) && lastReconnectTime == old(lastReconnectTime)
      ensures webServerUp == old(webServerUp) && nvsOpen == old(nvsOpen) && nvs == old(nvs)
    {
      ssid := Truncate(s, ssidCapacity - 1);
      password := Truncate(p, passwordCapacity - 1);
    }

    /**
     * `loadConfigFromNVS`: with usable stored credentials, copies them into
     * the buffers (cut to fit) and succeeds; otherwise changes nothing.
     */
    method LoadConfigFromNVS() returns (ok: bool)
      requires Valid()
      modifies this
      ensures Valid()
      ensures ok == Saved().Some?
      ensures ok ==> (ssid == Truncate(Saved().value.ssid, ssidCapacity - 1)
                      && password == Truncate(Saved().value.password, passwordCapacity - 1))
      ensures !ok ==> ssid == old(ssid) && password == old(password)
      ensures isStaConnected == old(isStaConnected) && isApMode == old(isApMode)
      ensures apStartTime == old(apStartTime) && lastReconnectTime == old(lastReconnectTime)
      ensures webServerUp == old(webServerUp) && nvsOpen == old(nvsOpen) && nvs == old(nvs)
    {
      if !nvsOpen || SsidKey !in nvs {
        return false;
      }
      var savedSsid := GetString(nvs, SsidKey);
      var savedPassword := GetString(nvs, PasswordKey);
      if |savedSsid| > 0 {
        CopyCredentials(savedSsid, savedPassword);
        return true;
      }
      return false;
    }

    /** `saveConfigToNVS`: both strings and the clock reading are written, if the store is open. */
    method SaveConfigToNVS(s: string, p: string, now: Millis)
      modifies this
      ensures nvs == if nvsOpen then AfterSave(old(nvs), s, p, now) else old(nvs)
      ensures ssid == old(ssid) && password == old(password)
      ensures isStaConnected == old(isStaConnected) && isApMode == old(isApMode)
      ensures apStartTime == old(apStartTime) && lastReconnectTime == old(lastReconnectTime)
      ensures webServerUp == old(webServerUp) && nvsOpen == old(nvsOpen)
    {
      if nvsOpen {
        nvs := nvs[SsidKey := Text(s)];
        nvs := nvs[PasswordKey := Text(p)];
        nvs := nvs[SavedTimeKey := Number(now)];
      }
    }

    /**
     * `handleSaveConfig`: `plain` is the request body, if there is one.
     * Without a body, or when the extracted ssid is empty, the reply is 400
     * and nothing changes. Otherwise both fields are stored, copied into
     * the buffers, acknowledged with 200, and the device restarts.
     */
    method HandleSaveConfig(plain: Option<ArduinoString>, now: Millis) returns (response: Response, restart: bool)
      requires Valid()
      modifies this
      ensures Valid()
      ensures plain.None? ==> response == MissingBody && !restart
      ensures plain.Some? && ParseSaveBody(plain.value).ssid == "" ==> response == EmptySsid && !restart
      ensures !restart ==> ssid == old(ssid) && password == old(password) && nvs == old(nvs)
      ensures restart <==> plain.Some? && ParseSaveBody(plain.value).ssid != ""
      ensures restart ==>
        var c := ParseSaveBody(plain.value);
        && response == SavedReply
        && nvs == (if nvsOpen then AfterSave(old(nvs), c.ssid, c.password, now) else old(nvs))
        && ssid == Truncate(c.ssid, ssidCapacity - 1)
        && password == Truncate(c.password, passwordCapacity - 1)
      ensures isStaConnected == old(isStaConnected) && isApMode == old(isApMode)
      ensures apStartTime == old(apStartTime) && lastReconnectTime == old(lastReconnectTime)
      ensures webServerUp == old(webServerUp) && nvsOpen == old(nvsOpen)
    {
      if plain.None? {
        return MissingBody, false;
      }
      var body := plain.value;
      var newSsid := ExtractField(body, SsidMarker);
      var newPassword := ExtractField(body, PasswordMarker);
      if |newSsid| == 0 {
        return EmptySsid, false;
      }
      SaveConfigToNVS(newSsid, newPassword, now);
      CopyCredentials(newSsid, newPassword);
      return SavedReply, true;
    }

    /**
     * `startAPMode`: the mode flag and start time are set whatever happens;
     * only when the soft AP comes up (`apOk`) are the web server created and
     * the DNS server started on port 53, answering with the AP's address.
     */
    method StartAPMode(now: Millis, apOk: bool, bindOk: bool)
      modifies this, dns
      ensures isApMode && apStartTime == now
      ensures webServerUp == (old(webServerUp) || apOk)
      ensures apOk ==> dns.port == DnsPort && dns.resolvedIP == apIP && dns.started == (bindOk || old(dns.started))
      ensures !apOk ==> dns.port == old(dns.port) && dns.resolvedIP == old(dns.resolvedIP) && dns.started == old(dns.started)
      ensures ssid == old(ssid) && password == old(password) && isStaConnected == old(isStaConnected)
      ensures lastReconnectTime == old(lastReconnectTime) && nvsOpen == old(nvsOpen) && nvs == old(nvs)
    {
      isApMode := true;
      apStartTime := now;
      if apOk {
        webServerUp := true;
        var _ := dns.Start(DnsPort, "*", apIP, bindOk);
      }
    }

    /** `stopAPMode`: leaves AP mode and drops the web server; does nothing outside AP mode. The DNS server is left running. */
    method StopAPMode()
      modifies this
      ensures !isApMode
      ensures webServerUp == (old(webServerUp) && !old(isApMode))
      ensures ssid == old(ssid) && password == old(password) && isStaConnected == old(isStaConnected)
      ensures apStartTime == old(apStartTime) && lastReconnectTime == old(lastReconnectTime)
      ensures nvsOpen == old(nvsOpen) && nvs == old(nvs)
    {
      if isApMode {
        isApMode := false;
        webServerUp := false;
      }
    }

    /**
     * `connect(s, p)`: polls the link at most 41 times; on success the
     * station flag is set and the credentials are copied in (cut to fit),
     * on failure the flag is cleared and the buffers keep their contents.
     */
    method Connect(s: string, p: string, linkAt: nat -> bool) returns (ok: bool)
      requires Valid()
      modifies this
      ensures Valid()
      ensures ok == ConnectSucceeds(linkAt)
      ensures isStaConnected == ok
      ensures ok ==> ssid == Truncate(s, ssidCapacity - 1) && password == Truncate(p, passwordCapacity - 1)
      ensures !ok ==> ssid == old(ssid) && password == old(password)
      ensures isApMode == old(isApMode) && apStartTime == old(apStartTime) && lastReconnectTime == old(lastReconnectTime)
      ensures webServerUp == old(webServerUp) && nvsOpen == old(nvsOpen) && nvs == old(nvs)
    {
      var attempts := WaitForLink(linkAt);
      if linkAt(attempts + 1) {
        isStaConnected := true;
        CopyCredentials(s, p);
        return true;
      }
      isStaConnected := false;
      return false;
    }

    /** The waiting loop of `connect`: the number of waits it makes before giving up or seeing a link. */
    static method WaitForLink(linkAt: nat -> bool) returns (attempts: nat)
      ensures attempts == AttemptsMade(linkAt, 0)
    {
      attempts := 0;
      while !linkAt(attempts) && attempts < MaxConnectAttempts
        invariant attempts <= MaxConnectAttempts
        invariant AttemptsMade(linkAt, attempts) == AttemptsMade(linkAt, 0)
        decreases MaxConnectAttempts - attempts
      {
        attempts := attempts + 1;
      }
    }

    /**
     * `init`: opens the store, then connects with the saved credentials, and
     * starts the access point when there are none or the connection fails.
     * `apNow` is the clock reading when the access point starts.
     */
    method Init(nvsBeginOk: bool, linkAt: nat -> bool, apNow: Millis, apOk: bool, bindOk: bool)
      requires Valid()
      modifies this, dns
      ensures Valid()
      ensures nvsOpen == (old(nvsOpen) || nvsBeginOk) && nvs == old(nvs)
      ensures isApMode <==> Saved().None? || !ConnectSucceeds(linkAt)
      ensures isStaConnected == !isApMode
      ensures Saved().Some? ==> (ssid == Truncate(Saved().value.ssid, ssidCapacity - 1)
                                 && password == Truncate(Saved().value.password, passwordCapacity - 1))
      ensures Saved().None? ==> ssid == old(ssid) && password == old(password)
      ensures lastReconnectTime == 0
      ensures isApMode ==> apStartTime == apNow && webServerUp == (old(webServerUp) || apOk)
      ensures isApMode && apOk ==> dns.port == DnsPort && dns.resolvedIP == apIP && dns.started == (bindOk || old(dns.started))
      ensures !(isApMode && apOk) ==>
        dns.port == old(dns.port) && dns.resolvedIP == old(dns.resolvedIP) && dns.started == old(dns.started)
      ensures !isApMode ==> apStartTime == old(apStartTime) && webServerUp == old(webServerUp)
    {
      nvsOpen := nvsOpen || nvsBeginOk;
      isStaConnected := false;
      isApMode := false;
      lastReconnectTime := 0;
      var loaded := LoadConfigFromNVS();
      if loaded {
        var connected := Connect(ssid, password, linkAt);
        if connected {
          isStaConnected := true;
        } else {
          StartAPMode(apNow, apOk, bindOk);
        }
      } else {
        StartAPMode(apNow, apOk, bindOk);
      }
    }

    /**
     * `handleReconnect`, one tick at clock reading `now` with the link in
     * state `linkUp`. In AP mode a link that came up ends AP mode, and
     * otherwise the device restarts once the AP has run longer than the
     * timeout. In station mode a lost link is retried when a full interval
     * has passed since the last retry, and a live link sets the station flag.
     */
    method HandleReconnect(linkUp: bool, now: Millis) returns (action: TickAction)
      modifies this
      ensures old(isApMode) && linkUp ==> action == StopAccessPoint && !isApMode
      ensures old(isApMode) && !linkUp ==>
        action == (if ApExpired(apStartTime, now, apTimeout) then Restart else NoAction) && isApMode
      ensures !old(isApMode) ==> !isApMode
      ensures !old(isApMode) && !linkUp ==>
        action == (if ReconnectDue(old(lastReconnectTime), now) then Reconnect else NoAction)
      ensures lastReconnectTime == if action == Reconnect then now else old(lastReconnectTime)
      ensures !old(isApMode) && linkUp ==> action == NoAction && isStaConnected
      ensures old(isApMode) || !linkUp ==> isStaConnected == old(isStaConnected)
      ensures webServerUp == (old(webServerUp) && action != StopAccessPoint)
      ensures ssid == old(ssid) && password == old(password) && apStartTime == old(apStartTime)
      ensures nvsOpen == old(nvsOpen) && nvs == old(nvs)
    {
      if isApMode {
        if linkUp {
          StopAPMode();
          return StopAccessPoint;
        }
        if Elapsed(apStartTime, now) > apTimeout {
          return Restart;
        }
        return NoAction;
      }
      if !linkUp {
        if Elapsed(lastReconnectTime, now) >= ReconnectInterval {
          lastReconnectTime := now;
          return Reconnect;
        }
        return NoAction;
      }
      isStaConnected := true;
      return NoAction;
    }

    /** `getLocalIP`: the station address only while both the flag and the link say connected, else 0.0.0.0. */
    method GetLocalIP(linkUp: bool, localIP: IPv4) returns (ip: IPv4)
      ensures ip == localIP <== isStaConnected && linkUp
      ensures !(isStaConnected && linkUp) ==> ip == Unspecified
    {
      if isStaConnected && linkUp {
        return localIP;
      }
      return Unspecified;
    }

    /**
     * `handleWebServer`, as far as DNS goes: in AP mode with the web server
     * up, the pending datagram, if any, goes to the DNS server.
     */
    method HandleWebServer(incoming: Option<DnsServer.Datagram>) returns (reply: Option<DnsServer.Datagram>)
      ensures reply.Some? <==> isApMode && webServerUp && dns.started && incoming.Some?
                               && DnsServer.FitsBuffer(|incoming.value.payload|)
      ensures reply.Some? ==>
        reply.value == DnsServer.Datagram(DnsServer.AnswerFor(incoming.value.payload, dns.resolvedIP),
                                          incoming.value.peerIP, incoming.value.peerPort)
    {
      reply := None;
      if isApMode && webServerUp {
        reply := dns.ProcessNextRequest(incoming);
      }
    }

    /** `clearConfig`: empties the store, if open, and both buffers. */
    method ClearConfig()
      modifies this
      ensures Valid() <== old(Valid())
      ensures ssid == "" && password == ""
      ensures nvs == if nvsOpen then map[] else old(nvs)
      ensures Saved().None?
      ensures isStaConnected == old(isStaConnected) && isApMode == old(isApMode)
      ensures apStartTime == old(apStartTime) && lastReconnectTime == old(lastReconnectTime)
      ensures webServerUp == old(webServerUp) && nvsOpen == old(nvsOpen)
    {
      if nvsOpen {
        nvs := map[];
      }
      ssid := "";
      password := "";
    }
  }
}
