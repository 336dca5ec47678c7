/** The shared playback clock: where playback stands at any instant, what reading and setting the
    status do to it, and when a client that follows it is told to resynchronise. Times and
    positions are in seconds. */
module PlaybackClock {

  datatype Status = Status(lastUpdate: real, currentTime: real, playbackRate: real, isPlaying: bool)

  /** How far playback gets in some seconds at some rate. */
  function Gain(seconds: real, rate: real): real {
    seconds * rate
  }

  lemma GainSum(a: real, b: real, rate: real)
    ensures Gain(a, rate) + Gain(b, rate) == Gain(a + b, rate)
  {
  }

  /** The position that a status stands for at time t; a live stream has none but its start. */
  function PositionAt(s: Status, live: bool, t: real): real {
    if live || !s.isPlaying then s.currentTime else s.currentTime + Gain(t - s.lastUpdate, s.playbackRate)
  }

  class Current {
    var movie: string
    var isLive: bool
    var status: Status

    constructor (now: real)
      ensures movie == "" && !isLive && forall t :: PositionAt(status, isLive, t) == 0.0
    {
      movie, isLive, status := "", false, Status(now, 0.0, 1.0, false);
    }

    /** A read moves the stored point, never the clock. */
    method UpdateStatus(now: real) returns (s: Status)
      modifies this`status
      ensures s == status == Read(old(status), isLive, now)
      ensures forall t :: PositionAt(status, isLive, t) == old(PositionAt(status, isLive, t))
    {
      ghost var before := status;
      if isLive {
        status := status.(lastUpdate := now);
        return status;
      }
      if status.isPlaying {
        status := status.(currentTime := status.currentTime + (now - status.lastUpdate) * status.playbackRate);
      }
      status := status.(lastUpdate := now);
      forall t ensures PositionAt(status, isLive, t) == PositionAt(before, isLive, t) {
        hide Gain;
        GainSum(now - before.lastUpdate, t - now, before.playbackRate);
      }
      return status;
    }

    method SetLiveStatus(now: real) returns (s: Status)
      modifies this`status
      ensures s == status == Status(now, 0.0, 1.0, true)
    {
      status := Status(now, 0.0, 1.0, true);
      return status;
    }

    /** From now on the position is the given one, advanced by the time the request took. */
    method SetStatus(playing: bool, seek: real, rate: real, timeDiff: real, now: real) returns (s: Status)
      modifies this`status
      ensures s == status && status.lastUpdate == now
      ensures isLive ==> status == Status(now, 0.0, 1.0, true)
      ensures !isLive ==> status.isPlaying == playing && status.playbackRate == rate
      ensures !isLive ==> forall t ::
                PositionAt(status, isLive, t) == if playing then seek + timeDiff * rate + (t - now) * rate else seek
    {
      if isLive {
        s := SetLiveStatus(now);
        return;
      }
      status := status.(isPlaying := playing);
      status := status.(playbackRate := rate);
      if playing {
        status := status.(currentTime := seek + timeDiff * rate);
      } else {
        status := status.(currentTime := seek);
      }
      status := status.(lastUpdate := now);
      return status;
    }

    method SetSeekRate(seek: real, rate: real, timeDiff: real, now: real) returns (s: Status)
      modifies this`status
      ensures s == status && status.lastUpdate == now
      ensures isLive ==> status == Status(now, 0.0, 1.0, true)
      ensures !isLive ==> status.isPlaying == old(status.isPlaying) && status.playbackRate == rate
      ensures !isLive ==> forall t ::
                PositionAt(status, isLive, t) ==
                if old(status.isPlaying) then seek + timeDiff * rate + (t - now) * rate else seek
    {
      if isLive {
        s := SetLiveStatus(now);
        return;
      }
      if status.isPlaying {
        status := status.(currentTime := seek + timeDiff * rate);
      } else {
        status := status.(currentTime := seek);
      }
      status := status.(playbackRate := rate);
      status := status.(lastUpdate := now);
      return status;
    }

    method SetSeek(seek: real, timeDiff: real, now: real) returns (s: Status)
      modifies this`status
      ensures s == status && status.lastUpdate == now
      ensures isLive ==> status == Status(now, 0.0, 1.0, true)
      ensures !isLive ==> status.isPlaying == old(status.isPlaying) && status.playbackRate == old(status.playbackRate)
      ensures !isLive ==> forall t ::
                PositionAt(status, isLive, t) ==
                if status.isPlaying then seek + timeDiff * status.playbackRate + (t - now) * status.playbackRate else seek
    {
      if isLive {
        s := SetLiveStatus(now);
        return;
      }
      if status.isPlaying {
        status := status.(currentTime := seek + timeDiff * status.playbackRate);
      } else {
        status := status.(currentTime := seek);
      }
      status := status.(lastUpdate := now);
      return status;
    }

    /** A newly chosen movie starts at zero; its rate is the one last set. */
    method SetMovie(id: string, live: bool, play: bool, now: real)
      modifies this
      ensures movie == id && isLive == live && status.isPlaying == play && status.lastUpdate == now
      ensures status.playbackRate == if live then 1.0 else old(status.playbackRate)
      ensures forall t :: PositionAt(status, isLive, t) ==
                          if live || !play then 0.0 else (t - now) * old(status.playbackRate)
    {
      movie, isLive := id, live;
      var s := SetSeek(0.0, 0.0, now);
      assert PositionAt(status, isLive, now) == 0.0;
      status := status.(isPlaying := play);
    }
  }

  // ---- Any number of reads ----

  /** What reading the status at `now` leaves behind and answers. */
  function Read(s: Status, live: bool, now: real): Status {
    s.(currentTime := PositionAt(s, live, now), lastUpdate := now)
  }

  function ReadAll(s: Status, live: bool, times: seq<real>): Status {
    if times == [] then s else Read(ReadAll(s, live, times[..|times| - 1]), live, times[|times| - 1])
  }

  /** Reads at any times, however many, leave the clock where it was, and each answers the
      position of its own instant. */
  lemma {:induction false} ReadsKeepClock(s: Status, live: bool, times: seq<real>, t: real)
    ensures PositionAt(ReadAll(s, live, times), live, t) == PositionAt(s, live, t)
    ensures times != [] ==> ReadAll(s, live, times).currentTime == PositionAt(s, live, times[|times| - 1])
  {
    hide Gain;
    if times != [] {
      var now := times[|times| - 1];
      var before := ReadAll(s, live, times[..|times| - 1]);
      ReadsKeepClock(s, live, times[..|times| - 1], t);
      ReadsKeepClock(s, live, times[..|times| - 1], now);
      GainSum(now - before.lastUpdate, t - now, before.playbackRate);
    }
  }

  // ---- Clients that follow ----

  const MAX_INTERVAL := 10.0

  /** How long a message took, by the sender's clock in milliseconds: within [0, 1.5], and 0 for
      a message without a timestamp. */
  function TimeDiff(timestamp: int, now: real): (d: real)
    ensures 0.0 <= d <= 1.5
    // The elapsed time, or the bound that it lies beyond.
    ensures timestamp != 0 ==>
              var since := now - timestamp as real / 1000.0;
              (d == since || (d == 0.0 && since < d) || (d == 1.5 && d < since))
    ensures timestamp == 0 ==> d == 0.0
  {
    var since := now - timestamp as real / 1000.0;
    if timestamp == 0 || since < 0.0 then 0.0 else if since > 1.5 then 1.5 else since
  }

  datatype ClientStatus = ClientStatus(isPlaying: bool, currentTime: real, playbackRate: real)

  predicate NeedsSync(client: ClientStatus, server: Status, timeDiff: real) {
    || client.isPlaying != server.isPlaying
    || client.playbackRate != server.playbackRate
    || server.currentTime + MAX_INTERVAL < client.currentTime + timeDiff
    || server.currentTime - MAX_INTERVAL > client.currentTime + timeDiff
  }

  /** A client is left alone if and only if it is in the same mode as the server, at the same rate, and
      its position with the transit time is at most ten seconds from the server's. */
  lemma LeftAloneIff(client: ClientStatus, server: Status, timeDiff: real)
    ensures !NeedsSync(client, server, timeDiff) <==>
              && client.isPlaying == server.isPlaying && client.playbackRate == server.playbackRate
              && -10.0 <= client.currentTime + timeDiff - server.currentTime <= 10.0
  {
  }

  /** A client that received the status `arrival` seconds after the server read it at time t0, and
      has played on from there until time `sent`. */
  function Follower(s: Status, live: bool, t0: real, arrival: real, sent: real): ClientStatus {
    var start := PositionAt(s, live, t0);
    ClientStatus(s.isPlaying,
                 if live || !s.isPlaying then start else start + Gain(sent - (t0 + arrival), s.playbackRate),
                 s.playbackRate)
  }

  /** When a message that carries this timestamp was sent; 0 carries none. */
  predicate SentAt(timestamp: int, sent: real) {
    timestamp != 0 ==> sent == timestamp as real / 1000.0
  }

  /** Exactly when a follower is told to resynchronise: the status check that it sends is answered
      `travel` seconds later, and the clock may have been read any number of times since t0. Only the
      two delays, the rate and what the timestamp tells of the second delay matter. */
  lemma FollowerNeedsSyncIff(s: Status, live: bool, times: seq<real>, t0: real, arrival: real, timestamp: int, sent: real, travel: real)
    requires SentAt(timestamp, sent) && travel >= 0.0
    ensures var diff := TimeDiff(timestamp, sent + travel);
            var lag := if live || !s.isPlaying then 0.0 else Gain(arrival + travel, s.playbackRate);
            NeedsSync(Follower(s, live, t0, arrival, sent), Read(ReadAll(s, live, times), live, sent + travel), diff)
            <==> lag - diff > MAX_INTERVAL || diff - lag > MAX_INTERVAL
  {
    hide Gain;
    ReadsKeepClock(s, live, times, sent + travel);
    SameRate(s, live, times);
    GainSum(t0 - s.lastUpdate, sent - (t0 + arrival), s.playbackRate);
    GainSum(sent - arrival - s.lastUpdate, arrival + travel, s.playbackRate);
  }

  lemma {:induction false} SameRate(s: Status, live: bool, times: seq<real>)
    ensures ReadAll(s, live, times).isPlaying == s.isPlaying && ReadAll(s, live, times).playbackRate == s.playbackRate
  {
    if times != [] { SameRate(s, live, times[..|times| - 1]); }
  }

  lemma NotNegative(a: real, b: real)
    requires a >= 0.0 && b >= 0.0
    ensures Gain(a, b) >= 0.0
  {
  }

  lemma GainBound(t: real, rate: real)
    requires 0.0 <= t <= 1.5 && 0.0 <= rate
    ensures 0.0 <= Gain(t, rate) <= 1.5 * rate
    ensures if rate <= 1.0 then Gain(t, rate) <= t else Gain(t, rate) - t <= 1.5 * rate - 1.5
  {
    NotNegative(t, rate);
    NotNegative(1.5 - t, rate);
    assert Gain(1.5 - t, rate) == 1.5 * rate - Gain(t, rate);
    if rate <= 1.0 {
      NotNegative(t, 1.0 - rate);
      assert Gain(t, 1.0 - rate) == t - Gain(t, rate);
    } else {
      NotNegative(1.5 - t, rate - 1.0);
      assert Gain(1.5 - t, rate - 1.0) == 1.5 * rate - 1.5 - Gain(t, rate) + t;
    }
  }

  /** A follower whose copy of the clock is exact and whose check takes at most 1.5 seconds is
      never told to resynchronise at a rate between 0 and 7; with a timestamp up to 7.66, without one
      up to 6.66. */
  lemma ExactFollowerNeverSyncs(s: Status, live: bool, times: seq<real>, t0: real, timestamp: int, sent: real, travel: real)
    requires SentAt(timestamp, sent) && 0.0 <= travel <= 1.5
    requires 0.0 <= s.playbackRate <= if timestamp == 0 then 6.66 else 7.66
    ensures !NeedsSync(Follower(s, live, t0, 0.0, sent), Read(ReadAll(s, live, times), live, sent + travel),
                       TimeDiff(timestamp, sent + travel))
  {
    hide Gain;
    FollowerNeedsSyncIff(s, live, times, t0, 0.0, timestamp, sent, travel);
    assert timestamp != 0 ==> TimeDiff(timestamp, sent + travel) == travel;
    GainBound(travel, s.playbackRate);
    assert 0.0 + travel == travel;
  }

  /** The time the status took to arrive is not made up for: at rate 7, 1.5 seconds of it make every
      check fail, however long that takes and however often the clock was read. */
  lemma LateArrivalForcesSync(s: Status, times: seq<real>, t0: real, timestamp: int, sent: real, travel: real)
    requires SentAt(timestamp, sent) && travel >= 0.0 && s.isPlaying && s.playbackRate == 7.0
    ensures NeedsSync(Follower(s, false, t0, 1.5, sent), Read(ReadAll(s, false, times), false, sent + travel),
                      TimeDiff(timestamp, sent + travel))
  {
    FollowerNeedsSyncIff(s, false, times, t0, 1.5, timestamp, sent, travel);
    hide NeedsSync, Follower, Read, ReadAll;
    assert Gain(1.5 + travel, 7.0) == 10.5 + 7.0 * travel;
    assert TimeDiff(timestamp, sent + travel) <= travel;
  }
}
