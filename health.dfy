/**
 * The health verdict of `RedisHealthChecker.CheckHealth` (redis.go): ping
 * the server, fetch its `INFO` text, parse it, and report the first of
 * these that trips: ping failed, fetch failed, loading from disk, replica
 * syncing, replica link not up. Otherwise the server is healthy.
 *
 * The two client calls are inputs: `PingReply` is what `Ping().Err()`
 * gave, `InfoReply` what `Info().Result()` gave.
 */
module RedisHealth {
  import opened Wrappers
  import opened GoStrings
  import opened InfoParser

  /** Outcome of `client.Ping()`. */
  datatype PingReply = Pong | PingError(cause: string)

  /** Outcome of `client.Info()`: the raw text, or the client's error. */
  datatype InfoReply = InfoText(raw: string) | InfoError(cause: string)

  /** What `CheckHealth` returns: nil, or one error per failure reason. */
  datatype Verdict =
    | Healthy
    | PingFailed(cause: string)
    | InfoFailed(cause: string)
    | Loading
    | Syncing
    | LinkDown

  /** `loading` is present and equal to "1". */
  predicate IsLoading(info: map<string, string>) {
    "loading" in info && info["loading"] == "1"
  }

  /** `master_sync_in_progress` is present and equal to "1". */
  predicate IsSyncing(info: map<string, string>) {
    "master_sync_in_progress" in info && info["master_sync_in_progress"] == "1"
  }

  /** `master_link_status` is present with a value other than "up". */
  predicate IsLinkDown(info: map<string, string>) {
    "master_link_status" in info && info["master_link_status"] != "up"
  }

  /** The checks on the parsed `INFO` map, in the order `CheckHealth` makes them. */
  function Policy(info: map<string, string>): (v: Verdict)
    ensures !v.PingFailed? && !v.InfoFailed?
  {
    if IsLoading(info) then Loading
    else if IsSyncing(info) then Syncing
    else if IsLinkDown(info) then LinkDown
    else Healthy
  }

  /** The verdict for one pair of client replies. */
  function HealthVerdict(ping: PingReply, info: InfoReply): Verdict {
    match ping
    case PingError(e) => PingFailed(e)
    case Pong =>
      match info
      case InfoError(e) => InfoFailed(e)
      case InfoText(raw) => Policy(Parse(raw))
  }

  /**
   * `CheckHealth` as redis.go writes it: guarded early returns over the
   * two replies and the map that `ParseKeyValue` builds.
   */
  method CheckHealth(ping: PingReply, info: InfoReply) returns (v: Verdict)
    ensures v == HealthVerdict(ping, info)
    ensures v == Healthy <==> ping == Pong && info.InfoText? && Policy(Parse(info.raw)) == Healthy
  {
    if ping.PingError? {
      return PingFailed(ping.cause);
    }
    if info.InfoError? {
      return InfoFailed(info.cause);
    }
    var m := ParseKeyValue(info.raw);
    if IsLoading(m) {
      return Loading;
    }
    if IsSyncing(m) {
      return Syncing;
    }
    if IsLinkDown(m) {
      return LinkDown;
    }
    return Healthy;
  }

  // ---------------------------------------------------------------------
  // The replies

  /** A failed ping decides the verdict; the `INFO` reply is never looked at. */
  lemma PingFailureDecides(cause: string, info1: InfoReply, info2: InfoReply)
    ensures HealthVerdict(PingError(cause), info1) == PingFailed(cause)
    ensures HealthVerdict(PingError(cause), info1) == HealthVerdict(PingError(cause), info2)
  {
  }

  /** After a good ping, a failed fetch decides the verdict; no map check is made. */
  lemma InfoFailureDecides(cause: string)
    ensures HealthVerdict(Pong, InfoError(cause)) == InfoFailed(cause)
  {
  }

  /** The connectivity verdicts arise exactly from the failed client calls. */
  lemma ConnectivityVerdicts(ping: PingReply, info: InfoReply)
    ensures HealthVerdict(ping, info).PingFailed? <==> ping.PingError?
    ensures HealthVerdict(ping, info).InfoFailed? <==> ping == Pong && info.InfoError?
  {
  }

  // ---------------------------------------------------------------------
  // The checks on the map, each one an if-and-only-if

  /** Loading wins whatever the other fields say. */
  lemma LoadingFirst(info: map<string, string>)
    ensures Policy(info) == Loading <==> IsLoading(info)
  {
  }

  /** Syncing is reported only when loading is not. */
  lemma SyncingSecond(info: map<string, string>)
    ensures Policy(info) == Syncing <==> !IsLoading(info) && IsSyncing(info)
  {
  }

  /** A link that is not up is reported only when the two earlier checks pass. */
  lemma LinkDownThird(info: map<string, string>)
    ensures Policy(info) == LinkDown <==> !IsLoading(info) && !IsSyncing(info) && IsLinkDown(info)
  {
  }

  /** Healthy: no check trips; an absent `master_link_status` passes. */
  lemma HealthyOtherwise(info: map<string, string>)
    ensures Policy(info) == Healthy <==>
      && !IsLoading(info)
      && !IsSyncing(info)
      && ("master_link_status" !in info || info["master_link_status"] == "up")
  {
  }

  // ---------------------------------------------------------------------
  // From the raw text to the verdict

  /** A final `loading:1` line makes the server unhealthy, whatever came before. */
  lemma TrailingLoadingLine(before: string)
    ensures HealthVerdict(Pong, InfoText(before + "\r\nloading:1")) == Loading
  {
    NotHeader("loading");
    WithoutCarriageReturn("loading");
    WithoutCarriageReturn("1");
    LastLineOverrides(before, "loading", "1");
    assert before + "\r\nloading:1" == before + LineBreak + "loading" + ":" + "1";
  }

  /** A reply with no kept line is healthy: nothing in it trips a check. */
  lemma NothingKeptIsHealthy(raw: string)
    requires forall i :: 0 <= i < |Lines(raw)| ==>
               HasPrefix(Lines(raw)[i], "#") || Count(Lines(raw)[i], ':') != 1
    ensures HealthVerdict(Pong, InfoText(raw)) == Healthy
  {
    NothingKept(raw);
  }

  /** A section header line on its own adds nothing. */
  lemma HeaderAlone()
    ensures Parse("# comment") == map[]
  {
    WithoutCarriageReturn("# comment");
    ParseOneLine("# comment");
    assert "# comment"[..1] == "#";
  }

  /** A header and two `k:v` lines, each ended by "\r\n", parse to the two fields. */
  lemma HeaderAndTwoFields(header: string, k1: string, v1: string, k2: string, v2: string)
    requires Parse(header) == map[]
    requires ':' !in k1 && ':' !in v1 && !HasPrefix(k1, "#")
    requires !Contains(k1, LineBreak) && !Contains(v1, LineBreak)
    requires ':' !in k2 && ':' !in v2 && !HasPrefix(k2, "#")
    requires !Contains(k2, LineBreak) && !Contains(v2, LineBreak)
    ensures Parse(header + LineBreak + k1 + ":" + v1 + LineBreak + k2 + ":" + v2 + LineBreak)
            == map[k1 := v1][k2 := v2]
  {
    var first := header + LineBreak + k1 + ":" + v1;
    LastLineOverrides(header, k1, v1);
    LastLineOverrides(first, k2, v2);
    TrailingLineBreak(first + LineBreak + k2 + ":" + v2);
  }

  /** A header, a `loading:0` line and an up link parse to two fields. */
  lemma HealthyReplicaParse()
    ensures Parse("# comment" + LineBreak + "loading" + ":" + "0" + LineBreak
                  + "master_link_status" + ":" + "up" + LineBreak)
            == map["loading" := "0", "master_link_status" := "up"]
  {
    HeaderAlone();
    NotHeader("loading");
    WithoutCarriageReturn("loading");
    WithoutCarriageReturn("0");
    NotHeader("master_link_status");
    WithoutCarriageReturn("master_link_status");
    WithoutCarriageReturn("up");
    HeaderAndTwoFields("# comment", "loading", "0", "master_link_status", "up");
  }

  /** That reply is healthy. */
  lemma HealthyReplica()
    ensures HealthVerdict(Pong, InfoText("# comment" + LineBreak + "loading" + ":" + "0" + LineBreak
                                         + "master_link_status" + ":" + "up" + LineBreak)) == Healthy
  {
    HealthyReplicaParse();
    HealthyOtherwise(map["loading" := "0", "master_link_status" := "up"]);
  }

  /** `loading:1` and a line break parse to the one field. */
  lemma LoadingReplyParse()
    ensures Parse("loading:1\r\n") == map["loading" := "1"]
  {
    NotHeader("loading");
    WithoutCarriageReturn("loading");
    WithoutCarriageReturn("1");
    ParseSingle("loading", "1");
    TrailingLineBreak("loading" + ":" + "1");
    assert "loading" + ":" + "1" + LineBreak == "loading:1\r\n";
  }

  /** A reply of `loading:1` alone: the server is loading. */
  lemma LoadingReply()
    ensures HealthVerdict(Pong, InfoText("loading:1\r\n")) == Loading
  {
    LoadingReplyParse();
    LoadingFirst(map["loading" := "1"]);
  }
}
