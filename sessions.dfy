/**
 The per-guild control state of the music service as a value: which audio
 client each guild is connected through, which cancellation handle belongs to
 each guild's current playback, which handles have been cancelled, and a
 record of every playback task started. Joining, playing and stopping are
 functions from one state to the next; the class in music_service.dfy keeps
 its fields equal to them.
 */
module Sessions {

  datatype Option<T> = None | Some(value: T)

  /** Discord guild ids are unsigned 64-bit snowflakes. */
  type GuildId = x: int | 0 <= x < 0x1_0000_0000_0000_0000

  /** A voice connection; opaque here, told apart by an id. */
  datatype AudioClient = AudioClient(id: nat)

  /** A voice channel; only the guild it belongs to matters here. */
  datatype VoiceChannel = VoiceChannel(guildId: GuildId, channelId: nat)

  /** A cancellation token source, identified by when it was created. */
  type Handle = nat

  /** A playback task started in the background: the guild, the client it
      streams to, the track and the handle whose token it watches. */
  datatype Launch = Launch(guild: GuildId, client: AudioClient, url: string, handle: Handle)

  datatype Registry = Registry(
    connected: map<GuildId, AudioClient>,
    playback: map<GuildId, Handle>,
    cancelled: set<Handle>,
    nextHandle: nat,
    launched: seq<Launch>)

  const Initial := Registry(map[], map[], {}, 0, [])

  /** A playback task that has not been told to stop. */
  ghost predicate Live(r: Registry, i: int)
  {
    0 <= i < |r.launched| && r.launched[i].handle !in r.cancelled
  }

  /** The invariant the service keeps:
      - every handle stored or cancelled was created already (below nextHandle);
      - a stored handle is not cancelled, and no two guilds share one;
      - every task got a handle of its own;
      - a task whose handle is not cancelled is its guild's current playback. */
  ghost predicate Inv(r: Registry)
  {
    && (forall g :: g in r.playback ==> r.playback[g] < r.nextHandle && r.playback[g] !in r.cancelled)
    && (forall g1, g2 :: g1 in r.playback && g2 in r.playback && g1 != g2 ==> r.playback[g1] != r.playback[g2])
    && (forall h :: h in r.cancelled ==> h < r.nextHandle)
    && (forall i :: 0 <= i < |r.launched| ==> r.launched[i].handle < r.nextHandle)
    && (forall i, j :: 0 <= i < j < |r.launched| ==> r.launched[i].handle != r.launched[j].handle)
    && (forall i :: Live(r, i) ==>
          r.launched[i].guild in r.playback && r.playback[r.launched[i].guild] == r.launched[i].handle)
  }

  /** JoinChannelAsync: a missing channel or a connect that throws changes
      nothing; otherwise the guild's client is replaced by the new one. */
  function JoinStep(r: Registry, channel: Option<VoiceChannel>, connect: Option<AudioClient>): Registry
  {
    match (channel, connect)
    case (Some(c), Some(client)) => r.(connected := r.connected[c.guildId := client])
    case _ => r
  }

  /** PlayAsync: without a client nothing happens; otherwise the guild's
      previous handle, if any, is cancelled and a fresh one is installed for a
      newly started task streaming `url` to the guild's client. */
  function PlayStep(r: Registry, guild: GuildId, url: string): Registry
  {
    if guild !in r.connected then r
    else
      var cancelled := if guild in r.playback then r.cancelled + {r.playback[guild]} else r.cancelled;
      var h := r.nextHandle;
      Registry(r.connected, r.playback[guild := h], cancelled, h + 1,
               r.launched + [Launch(guild, r.connected[guild], url, h)])
  }

  /** StopAsync: the guild's handle, if any, is cancelled and dropped. */
  function StopStep(r: Registry, guild: GuildId): Registry
  {
    if guild in r.playback then
      r.(cancelled := r.cancelled + {r.playback[guild]}, playback := r.playback - {guild})
    else r
  }

  /** What one guild can observe of the state: its client, its handle and
      whether that is cancelled, and which of its tasks are still live. */
  datatype GuildView = GuildView(client: Option<AudioClient>, handle: Option<Handle>,
                                 handleCancelled: bool, live: set<int>)

  ghost function ViewOf(r: Registry, g: GuildId): GuildView
  {
    GuildView(
      if g in r.connected then Some(r.connected[g]) else None,
      if g in r.playback then Some(r.playback[g]) else None,
      g in r.playback && r.playback[g] in r.cancelled,
      set i | 0 <= i < |r.launched| && r.launched[i].guild == g && Live(r, i))
  }

  // ---------------------------------------------------------------------
  // The invariant is kept

  lemma InitialInv()
    ensures Inv(Initial)
  {
  }

  lemma JoinKeepsInv(r: Registry, channel: Option<VoiceChannel>, connect: Option<AudioClient>)
    requires Inv(r)
    ensures Inv(JoinStep(r, channel, connect))
  {
  }

  lemma PlayKeepsInv(r: Registry, guild: GuildId, url: string)
    requires Inv(r)
    ensures Inv(PlayStep(r, guild, url))
  {
    if guild in r.connected {
      var r' := PlayStep(r, guild, url);
      forall i | Live(r', i)
        ensures r'.launched[i].guild in r'.playback
        ensures r'.playback[r'.launched[i].guild] == r'.launched[i].handle
      {
        if i < |r.launched| {
          assert Live(r, i);
        }
      }
    }
  }

  lemma StopKeepsInv(r: Registry, guild: GuildId)
    requires Inv(r)
    ensures Inv(StopStep(r, guild))
  {
    var r' := StopStep(r, guild);
    forall i | Live(r', i)
      ensures r'.launched[i].guild in r'.playback
      ensures r'.playback[r'.launched[i].guild] == r'.launched[i].handle
    {
      assert Live(r, i);
    }
  }

  // ---------------------------------------------------------------------
  // What the operations promise

  /** At most one task per guild is live, and it is the one holding the
      guild's stored handle. */
  lemma AtMostOneLive(r: Registry, g: GuildId, i: int, j: int)
    requires Inv(r)
    requires Live(r, i) && r.launched[i].guild == g
    requires Live(r, j) && r.launched[j].guild == g
    ensures i == j
    ensures g in r.playback && r.launched[i].handle == r.playback[g]
  {
  }

  /** Playing without a client leaves every field as it was, the guild's
      running playback included. */
  lemma PlayWithoutClient(r: Registry, guild: GuildId, url: string)
    requires guild !in r.connected
    ensures PlayStep(r, guild, url) == r
  {
  }

  /** Playing on a connected guild preempts: the previous handle is cancelled,
      the stored handle is fresh and uncancelled, and the task just started
      is the only live one of the guild. */
  lemma PlayPreempts(r: Registry, guild: GuildId, url: string)
    requires Inv(r) && guild in r.connected
    ensures var r' := PlayStep(r, guild, url);
      && (guild in r.playback ==> r.playback[guild] in r'.cancelled)
      && guild in r'.playback
      && r'.playback[guild] !in r'.cancelled
      && r'.playback[guild] !in r.cancelled
      && (forall i :: 0 <= i < |r.launched| ==> r.launched[i].handle != r'.playback[guild])
      && |r'.launched| == |r.launched| + 1
      && r'.launched[|r.launched|] == Launch(guild, r.connected[guild], url, r'.playback[guild])
      && (forall i :: Live(r', i) && r'.launched[i].guild == guild ==> i == |r.launched|)
  {
    var r' := PlayStep(r, guild, url);
    PlayKeepsInv(r, guild, url);
    forall i | Live(r', i) && r'.launched[i].guild == guild
      ensures i == |r.launched|
    {
      AtMostOneLive(r', guild, i, |r.launched|);
    }
  }

  /** Stopping cancels and drops the guild's handle, after which none of the
      guild's tasks is live; without a handle it changes nothing. */
  lemma StopCancels(r: Registry, guild: GuildId)
    requires Inv(r)
    ensures var r' := StopStep(r, guild);
      && guild !in r'.playback
      && (guild in r.playback ==> r.playback[guild] in r'.cancelled)
      && (guild !in r.playback ==> r' == r)
      && (forall i :: Live(r', i) ==> r'.launched[i].guild != guild)
  {
    var r' := StopStep(r, guild);
    forall i | Live(r', i)
      ensures r'.launched[i].guild != guild
    {
      assert Live(r, i);
    }
  }

  /** Stopping twice is stopping once. */
  lemma StopIdempotent(r: Registry, guild: GuildId)
    ensures StopStep(StopStep(r, guild), guild) == StopStep(r, guild)
  {
  }

  /** Joining touches only the joined guild. */
  lemma JoinIsolated(r: Registry, channel: Option<VoiceChannel>, connect: Option<AudioClient>, g: GuildId)
    requires channel.Some? ==> channel.value.guildId != g
    ensures ViewOf(JoinStep(r, channel, connect), g) == ViewOf(r, g)
  {
  }

  /** Playing touches only the played guild: every other guild keeps its
      client, its handle, that handle's status and its live tasks. */
  lemma PlayIsolated(r: Registry, guild: GuildId, url: string, g: GuildId)
    requires Inv(r) && g != guild
    ensures ViewOf(PlayStep(r, guild, url), g) == ViewOf(r, g)
  {
    if guild in r.connected && guild in r.playback {
      var r' := PlayStep(r, guild, url);
      var prev := r.playback[guild];
      assert g in r.playback ==> r.playback[g] != prev;
      forall i | 0 <= i < |r.launched| && r.launched[i].guild == g
        ensures Live(r', i) == Live(r, i)
      {
        if Live(r, i) {
          assert r.launched[i].handle != prev;
        }
      }
      assert r'.launched[|r.launched|].guild != g;
    }
  }

  /** Stopping touches only the stopped guild. */
  lemma StopIsolated(r: Registry, guild: GuildId, g: GuildId)
    requires Inv(r) && g != guild
    ensures ViewOf(StopStep(r, guild), g) == ViewOf(r, g)
  {
    if guild in r.playback {
      var r' := StopStep(r, guild);
      var prev := r.playback[guild];
      assert g in r.playback ==> r.playback[g] != prev;
      forall i | 0 <= i < |r.launched| && r.launched[i].guild == g
        ensures Live(r', i) == Live(r, i)
      {
        if Live(r, i) {
          assert r.launched[i].handle != prev;
        }
      }
    }
  }
}
