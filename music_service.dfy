/**
 The music service object: two dictionaries keyed by guild id, one holding
 each guild's audio client and one holding the cancellation source of each
 guild's current playback. Cancellation sources are numbered as they are
 created and the set of cancelled ones is kept beside them; the tasks that
 playback starts are recorded in a ghost field.
 */
module Service {
  import opened Sessions

  class MusicService {
    var connectedChannels: map<GuildId, AudioClient>
    var playbackCts: map<GuildId, Handle>
    var cancelled: set<Handle>
    var nextHandle: nat
    ghost var launched: seq<Launch>

    ghost function State(): Registry
      reads this
    {
      Registry(connectedChannels, playbackCts, cancelled, nextHandle, launched)
    }

    ghost predicate Valid()
      reads this
    {
      Inv(State())
    }

    constructor ()
      ensures Valid()
      ensures State() == Initial
    {
      connectedChannels, playbackCts := map[], map[];
      cancelled, nextHandle := {}, 0;
      launched := [];
      InitialInv();
    }

    /** JoinChannelAsync. `channel` is None for a null channel; `connect` is
        what ConnectAsync yields, None when it throws. */
    method JoinChannel(channel: Option<VoiceChannel>, connect: Option<AudioClient>)
      requires Valid()
      modifies this
      ensures Valid()
      ensures State() == JoinStep(old(State()), channel, connect)
      ensures channel.None? || connect.None? ==> unchanged(this)
      ensures channel.Some? && connect.Some? ==>
        connectedChannels == old(connectedChannels)[channel.value.guildId := connect.value]
      ensures playbackCts == old(playbackCts) && cancelled == old(cancelled)
      ensures forall g :: (channel.Some? ==> g != channel.value.guildId) ==>
        ViewOf(State(), g) == ViewOf(old(State()), g)
    {
      if channel.None? {
        return;
      }
      if connect.None? {
        return;
      }
      ghost var before := State();
      connectedChannels := connectedChannels[channel.value.guildId := connect.value];
      JoinKeepsInv(before, channel, connect);
      forall g | g != channel.value.guildId
        ensures ViewOf(State(), g) == ViewOf(before, g)
      {
        JoinIsolated(before, channel, connect, g);
      }
    }

    /** PlayAsync: preempt the guild's current playback, if it is connected. */
    method Play(guild: GuildId, url: string)
      requires Valid()
      modifies this
      ensures Valid()
      ensures State() == PlayStep(old(State()), guild, url)
      ensures guild !in connectedChannels ==> unchanged(this)
      ensures guild in connectedChannels ==>
        && guild in playbackCts
        && playbackCts[guild] >= old(nextHandle)
        && playbackCts[guild] !in cancelled
        && (guild in old(playbackCts) ==> old(playbackCts)[guild] in cancelled)
      ensures connectedChannels == old(connectedChannels)
      ensures forall g :: g != guild ==> ViewOf(State(), g) == ViewOf(old(State()), g)
    {
      ghost var before := State();
      if guild !in connectedChannels {
        return;
      }
      var audioClient := connectedChannels[guild];

      if guild in playbackCts {
        var oldCts := playbackCts[guild];
        cancelled := cancelled + {oldCts};
        playbackCts := playbackCts - {guild};
      }

      var cts := nextHandle;
      nextHandle := nextHandle + 1;
      playbackCts := playbackCts[guild := cts];
      launched := launched + [Launch(guild, audioClient, url, cts)];

      assert State() == PlayStep(before, guild, url);
      PlayKeepsInv(before, guild, url);
      forall g | g != guild
        ensures ViewOf(State(), g) == ViewOf(before, g)
      {
        PlayIsolated(before, guild, url, g);
      }
    }

    /** StopAsync: cancel and drop the guild's playback handle, if any. */
    method Stop(guild: GuildId)
      requires Valid()
      modifies this
      ensures Valid()
      ensures State() == StopStep(old(State()), guild)
      ensures guild !in playbackCts
      ensures guild in old(playbackCts) ==> old(playbackCts)[guild] in cancelled
      ensures guild !in old(playbackCts) ==> unchanged(this)
      ensures connectedChannels == old(connectedChannels)
      ensures forall g :: g != guild ==> ViewOf(State(), g) == ViewOf(old(State()), g)
    {
      ghost var before := State();
      if guild in playbackCts {
        var cts := playbackCts[guild];
        cancelled := cancelled + {cts};
        playbackCts := playbackCts - {guild};
      }
      StopKeepsInv(before, guild);
      forall g | g != guild
        ensures ViewOf(State(), g) == ViewOf(before, g)
      {
        StopIsolated(before, guild, g);
      }
    }
  }

  /** Stopping a guild twice leaves the service as stopping it once. */
  method StopTwice(service: MusicService, guild: GuildId)
    requires service.Valid()
    modifies service
    ensures service.Valid()
    ensures service.State() == StopStep(old(service.State()), guild)
  {
    service.Stop(guild);
    service.Stop(guild);
    StopIdempotent(old(service.State()), guild);
  }
}
