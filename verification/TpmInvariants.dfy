/**
 What stays true of the TPM whatever frames reach it: no nonceTPM is current
 twice, every record is of a frame that was checked, a command is carried out
 at most once, and a session changes only by its own commands.
 */
module TpmInvariants {
  import opened Basics
  import opened Constants
  import opened CryptoCore
  import opened Sessions
  import opened Frames
  import opened ReferenceTpm
  import opened LockStep

  // ---------- processed at most once ----------

  /** No nonceTPM is ever current twice. */
  ghost predicate NoncesDistinct<D>(tpm: TpmState<D>, used: set<bytes>) {
    && (forall h | h in tpm.sessions :: tpm.sessions[h].nonceTpm in used)
    && (forall g, h | g in tpm.sessions && h in tpm.sessions && g != h ::
          tpm.sessions[g].nonceTpm != tpm.sessions[h].nonceTpm)
    && (forall i | 0 <= i < |tpm.log| :: tpm.log[i].nonceBefore in used)
    && (forall i, h | 0 <= i < |tpm.log| && h in tpm.sessions ::
          tpm.log[i].nonceBefore != tpm.sessions[h].nonceTpm)
    && (forall i, j | 0 <= i < j < |tpm.log| :: tpm.log[i].nonceBefore != tpm.log[j].nonceBefore)
  }

  /** Every record is of a frame that was checked when it was carried out. */
  ghost predicate Recorded<D>(c: Crypto, dev: Device<D>, e: Entry) {
    && c.hmac(e.alg, e.key, CommandMessage(c, e)) == e.signed.hmac
    && var p := ReadCommand(dev.handleCount, e.frame);
       && p.Parsed? && p.value.auth == Some(e.signed) && p.value.code == e.code
       && |p.value.handles| == |e.names| && p.value.params == e.request
  }

  ghost predicate AllRecorded<D>(c: Crypto, dev: Device<D>, log: seq<Entry>) {
    forall i | 0 <= i < |log| :: Recorded(c, dev, log[i])
  }

  /** What is true of a TPM, whatever reaches it, while its random nonces do not
      repeat: used are the nonces drawn so far. */
  ghost predicate Sound<D>(c: Crypto, dev: Device<D>, tpm: TpmState<D>, used: set<bytes>) {
    NoncesDistinct(tpm, used) && AllRecorded(c, dev, tpm.log)
  }

  lemma SoundWiden<D>(c: Crypto, dev: Device<D>, tpm: TpmState<D>, used: set<bytes>, more: set<bytes>)
    requires Sound(c, dev, tpm, used) && used <= more
    ensures Sound(c, dev, tpm, more)
  {
  }

  /** What one step of the TPM may do to its sessions and its log: drop a
      session at most, start one, or carry a command out. */
  ghost predicate Effect<D>(c: Crypto, dev: Device<D>, tpm: TpmState<D>, after: TpmState<D>, frame: bytes, draw: Draw) {
    || (after.log == tpm.log && Fewer(tpm.sessions, after.sessions))
    || (after.log == tpm.log && Started(tpm.sessions, after.sessions, draw))
    || CarriesOut(c, dev, tpm, after, frame, draw)
  }

  ghost predicate Fewer(sessions: map<u32, TpmSession>, after: map<u32, TpmSession>) {
    forall h | h in after :: h in sessions && after[h] == sessions[h]
  }

  ghost predicate Started(sessions: map<u32, TpmSession>, after: map<u32, TpmSession>, draw: Draw) {
    && draw.handle !in sessions && draw.handle in after
    && after[draw.handle].nonceTpm == draw.nonce
    && (forall h | h in after && h != draw.handle :: h in sessions && after[h] == sessions[h])
  }

  /** The device, in the state before, did what the recorded command asks of the
      handles in its frame, and that is what the record says was answered. */
  ghost predicate Ran<D>(dev: Device<D>, before: D, e: Entry, after: D) {
    var p := ReadCommand(dev.handleCount, e.frame);
    && p.Parsed? && NamesOf(dev, before, p.value.handles) == e.names
    && dev.exec(before, true, e.code, p.value.handles, e.request) == (after, Done(e.handles, e.params))
  }

  ghost predicate CarriesOut<D>(c: Crypto, dev: Device<D>, tpm: TpmState<D>, after: TpmState<D>, frame: bytes,
                                draw: Draw)
  {
    |after.log| == |tpm.log| + 1 &&
    var e := after.log[|tpm.log|];
    && e.session in tpm.sessions && e.nonceBefore == tpm.sessions[e.session].nonceTpm
    && e.nonceAfter == draw.nonce && e.frame == frame && Recorded(c, dev, e)
    && Ran(dev, tpm.device, e, after.device) && after == Rolled(tpm, after.device, e)
  }

  lemma ServeEffect<D>(c: Crypto, dev: Device<D>, tpm: TpmState<D>, frame: bytes, draw: Draw)
    ensures Effect(c, dev, tpm, Serve(c, dev, tpm, frame, draw).tpm, frame, draw)
  {
    var after := Serve(c, dev, tpm, frame, draw).tpm;
    var p := ReadCommand(dev.handleCount, frame);
    if p.Parsed? {
      var cmd := p.value;
      if cmd.auth.None? {
        PlainEffect(c, dev, tpm, cmd, draw, frame);
      } else if cmd.handles != [] && cmd.auth.value.handle == RS_PW {
        PasswordEffect(c, dev, tpm, cmd, draw, frame);
      } else if cmd.handles != [] {
        SessionEffect(c, dev, tpm, cmd, draw, frame);
      }
    }
  }

  lemma PasswordEffect<D>(c: Crypto, dev: Device<D>, tpm: TpmState<D>, cmd: Command, draw: Draw, frame: bytes)
    requires cmd.auth.Some? && cmd.handles != []
    ensures Effect(c, dev, tpm, ServePassword(dev, tpm, cmd).tpm, frame, draw)
  {
  }

  lemma PlainEffect<D>(c: Crypto, dev: Device<D>, tpm: TpmState<D>, cmd: Command, draw: Draw, frame: bytes)
    ensures Effect(c, dev, tpm, ServePlain(c, dev, tpm, cmd, draw).tpm, frame, draw)
  {
  }

  lemma SessionEffect<D>(c: Crypto, dev: Device<D>, tpm: TpmState<D>, cmd: Command, draw: Draw, frame: bytes)
    requires cmd.auth.Some? && cmd.handles != []
    requires var p := ReadCommand(dev.handleCount, frame); p.Parsed? && p.value == cmd
    ensures Effect(c, dev, tpm, ServeSession(c, dev, tpm, frame, cmd, draw).tpm, frame, draw)
  {
    var after := ServeSession(c, dev, tpm, frame, cmd, draw).tpm;
    if after != tpm {
      var (device, answer) := dev.exec(tpm.device, true, cmd.code, cmd.handles, cmd.params);
      var e := Pending(dev, tpm, frame, cmd, answer, draw);
      assert after == Rolled(tpm, device, e);
      assert Recorded(c, dev, e) && Ran(dev, tpm.device, e, device);
    }
  }

  lemma FewerKeepsDistinct<D>(tpm: TpmState<D>, after: TpmState<D>, used: set<bytes>)
    requires NoncesDistinct(tpm, used)
    requires after.log == tpm.log && Fewer(tpm.sessions, after.sessions)
    ensures NoncesDistinct(after, used)
  {
  }

  lemma StartedKeepsDistinct<D>(tpm: TpmState<D>, after: TpmState<D>, draw: Draw, used: set<bytes>)
    requires NoncesDistinct(tpm, used) && draw.nonce !in used
    requires after.log == tpm.log && Started(tpm.sessions, after.sessions, draw)
    ensures NoncesDistinct(after, used + {draw.nonce})
  {
  }

  lemma RolledKeepsDistinct<D>(tpm: TpmState<D>, device: D, e: Entry, used: set<bytes>)
    requires NoncesDistinct(tpm, used) && e.nonceAfter !in used
    requires e.session in tpm.sessions && e.nonceBefore == tpm.sessions[e.session].nonceTpm
    ensures NoncesDistinct(Rolled(tpm, device, e), used + {e.nonceAfter})
  {
  }

  lemma ServeSound<D>(c: Crypto, dev: Device<D>, tpm: TpmState<D>, frame: bytes, draw: Draw, used: set<bytes>)
    requires Sound(c, dev, tpm, used) && draw.nonce !in used
    ensures Sound(c, dev, Serve(c, dev, tpm, frame, draw).tpm, used + {draw.nonce})
  {
    ServeEffect(c, dev, tpm, frame, draw);
    EffectKeepsDistinct(c, dev, tpm, Serve(c, dev, tpm, frame, draw).tpm, frame, draw, used);
  }

  lemma EffectKeepsDistinct<D>(c: Crypto, dev: Device<D>, tpm: TpmState<D>, after: TpmState<D>, frame: bytes,
                               draw: Draw, used: set<bytes>)
    requires NoncesDistinct(tpm, used) && draw.nonce !in used
    requires AllRecorded(c, dev, tpm.log)
    requires Effect(c, dev, tpm, after, frame, draw)
    ensures NoncesDistinct(after, used + {draw.nonce})
    ensures AllRecorded(c, dev, after.log)
  {
    if CarriesOut(c, dev, tpm, after, frame, draw) {
      RolledKeepsDistinct(tpm, after.device, after.log[|tpm.log|], used);
    } else if Started(tpm.sessions, after.sessions, draw) {
      StartedKeepsDistinct(tpm, after, draw, used);
    } else {
      FewerKeepsDistinct(tpm, after, used);
    }
  }

  ghost function DrawnNonces(frames: seq<Arrival>): set<bytes> {
    set i | 0 <= i < |frames| :: frames[i].draw.nonce
  }

  ghost predicate FreshDraws(frames: seq<Arrival>, used: set<bytes>) {
    && (forall i | 0 <= i < |frames| :: frames[i].draw.nonce !in used)
    && (forall i, j | 0 <= i < j < |frames| :: frames[i].draw.nonce != frames[j].draw.nonce)
  }

  lemma DrawnSnoc(frames: seq<Arrival>)
    requires frames != []
    ensures DrawnNonces(frames) == DrawnNonces(frames[..|frames| - 1]) + {frames[|frames| - 1].draw.nonce}
  {
    var n := |frames| - 1;
    forall x | x in DrawnNonces(frames) ensures x in DrawnNonces(frames[..n]) + {frames[n].draw.nonce} {
      var i :| 0 <= i < |frames| && frames[i].draw.nonce == x;
      if i < n {
        assert frames[..n][i] == frames[i];
      }
    }
    forall x | x in DrawnNonces(frames[..n]) ensures x in DrawnNonces(frames) {
      var i :| 0 <= i < n && frames[..n][i].draw.nonce == x;
      assert frames[i].draw.nonce == x;
    }
  }

  lemma LastDrawIsFresh(frames: seq<Arrival>, used: set<bytes>)
    requires frames != [] && FreshDraws(frames, used)
    ensures var n := |frames| - 1;
      && FreshDraws(frames[..n], used)
      && frames[n].draw.nonce !in used + DrawnNonces(frames[..n])
      && DrawnNonces(frames) == DrawnNonces(frames[..n]) + {frames[n].draw.nonce}
  {
    DrawnSnoc(frames);
  }

  lemma ServeLastSound<D>(c: Crypto, dev: Device<D>, tpm: TpmState<D>, last: Arrival, used: set<bytes>,
                          drawn: set<bytes>)
    requires Sound(c, dev, tpm, used + drawn) && last.draw.nonce !in used + drawn
    ensures Sound(c, dev, Serve(c, dev, tpm, last.frame, last.draw).tpm, used + (drawn + {last.draw.nonce}))
  {
    ServeSound(c, dev, tpm, last.frame, last.draw, used + drawn);
    assert used + drawn + {last.draw.nonce} == used + (drawn + {last.draw.nonce});
  }

  lemma {:induction false} ServeAllSound<D>(c: Crypto, dev: Device<D>, tpm: TpmState<D>,
                                            frames: seq<Arrival>, used: set<bytes>)
    requires Sound(c, dev, tpm, used) && FreshDraws(frames, used)
    ensures Sound(c, dev, ServeAll(c, dev, tpm, frames), used + DrawnNonces(frames))
  {
    if frames == [] {
      assert used + DrawnNonces(frames) == used;
    } else {
      var init, last := frames[..|frames| - 1], frames[|frames| - 1];
      LastDrawIsFresh(frames, used);
      ServeAllSound(c, dev, tpm, init, used);
      ServeLastSound(c, dev, ServeAll(c, dev, tpm, init), last, used, DrawnNonces(init));
    }
  }

  /** Among the commands carried out, equal HMACs mean equal messages. */
  ghost predicate NoMacCollision(c: Crypto, log: seq<Entry>) {
    forall i, j | 0 <= i < |log| && 0 <= j < |log| ::
      c.hmac(log[i].alg, log[i].key, CommandMessage(c, log[i]))
      == c.hmac(log[j].alg, log[j].key, CommandMessage(c, log[j]))
      ==> CommandMessage(c, log[i]) == CommandMessage(c, log[j])
  }

  lemma FramesDiffer<D>(c: Crypto, dev: Device<D>, tpm: TpmState<D>, used: set<bytes>, i: nat, j: nat)
    requires Sound(c, dev, tpm, used) && NoMacCollision(c, tpm.log)
    requires i < j < |tpm.log|
    ensures tpm.log[i].frame != tpm.log[j].frame
  {
    var a, b := tpm.log[i], tpm.log[j];
    assert Recorded(c, dev, a) && Recorded(c, dev, b);
    if a.frame == b.frame {
      assert a.signed == b.signed;
      MessageDetermines(c.hash(a.alg, a.CpBytes()), a.signed.nonceCaller, a.nonceBefore, a.signed.attributes,
                        c.hash(b.alg, b.CpBytes()), b.signed.nonceCaller, b.nonceBefore, b.signed.attributes);
      assert false;
    }
  }

  /** Whatever frames reach the TPM, in whatever order and however often, no
      frame is carried out twice under session authorization. */
  lemma CarriedOutAtMostOnce<D>(c: Crypto, dev: Device<D>, tpm: TpmState<D>, frames: seq<Arrival>, used: set<bytes>)
    requires Sound(c, dev, tpm, used) && FreshDraws(frames, used)
    requires NoMacCollision(c, ServeAll(c, dev, tpm, frames).log)
    ensures var log := ServeAll(c, dev, tpm, frames).log;
      forall i, j | 0 <= i < j < |log| :: log[i].frame != log[j].frame
  {
    ServeAllSound(c, dev, tpm, frames, used);
    var after := ServeAll(c, dev, tpm, frames);
    forall i, j | 0 <= i < j < |after.log| ensures after.log[i].frame != after.log[j].frame {
      FramesDiffer(c, dev, after, used + DrawnNonces(frames), i, j);
    }
  }

  // ---------- a record is of a step that was taken ----------

  /** The log grows by a record of the frame served, or not at all. */
  lemma ServeLogs<D>(c: Crypto, dev: Device<D>, tpm: TpmState<D>, frame: bytes, draw: Draw)
    ensures var after := Serve(c, dev, tpm, frame, draw).tpm;
      && tpm.log <= after.log && |after.log| <= |tpm.log| + 1
      && (after.log != tpm.log ==> CarriesOut(c, dev, tpm, after, frame, draw))
  {
    ServeEffect(c, dev, tpm, frame, draw);
  }

  lemma ServeExtends<D>(c: Crypto, dev: Device<D>, start: TpmState<D>, tpm: TpmState<D>, frame: bytes, draw: Draw)
    requires start.log <= tpm.log
    ensures start.log <= Serve(c, dev, tpm, frame, draw).tpm.log
  {
    ServeLogs(c, dev, tpm, frame, draw);
  }

  lemma {:induction false} ServeAllExtends<D>(c: Crypto, dev: Device<D>, tpm: TpmState<D>, frames: seq<Arrival>)
    ensures tpm.log <= ServeAll(c, dev, tpm, frames).log
  {
    if frames != [] {
      var n := |frames| - 1;
      ServeAllExtends(c, dev, tpm, frames[..n]);
      ServeExtends(c, dev, tpm, ServeAll(c, dev, tpm, frames[..n]), frames[n].frame, frames[n].draw);
    }
  }

  lemma InitOfAppend<T>(a: seq<T>, b: seq<T>)
    requires b != []
    ensures (a + b)[..|a + b| - 1] == a + b[..|b| - 1] && (a + b)[|a + b| - 1] == b[|b| - 1]
  {
  }

  lemma {:induction false} ServeAllAppend<D>(c: Crypto, dev: Device<D>, tpm: TpmState<D>, a: seq<Arrival>,
                                             b: seq<Arrival>)
    ensures ServeAll(c, dev, tpm, a + b) == ServeAll(c, dev, ServeAll(c, dev, tpm, a), b)
  {
    if b == [] {
      assert a + b == a;
    } else {
      ServeAllAppend(c, dev, tpm, a, b[..|b| - 1]);
      InitOfAppend(a, b);
    }
  }

  lemma ServeAllGrows<D>(c: Crypto, dev: Device<D>, tpm: TpmState<D>, frames: seq<Arrival>, k: nat)
    requires k <= |frames|
    ensures ServeAll(c, dev, tpm, frames[..k]).log <= ServeAll(c, dev, tpm, frames).log
  {
    ServeAllAppend(c, dev, tpm, frames[..k], frames[k..]);
    assert frames[..k] + frames[k..] == frames;
    ServeAllExtends(c, dev, ServeAll(c, dev, tpm, frames[..k]), frames[k..]);
  }

  /** The k-th of these frames was carried out, as the last record of the log
      that it left. */
  ghost predicate CarriedOutAt<D>(c: Crypto, dev: Device<D>, tpm: TpmState<D>, frames: seq<Arrival>, k: nat) {
    k < |frames| &&
    CarriesOut(c, dev, ServeAll(c, dev, tpm, frames[..k]), ServeAll(c, dev, tpm, frames[..k + 1]), frames[k].frame,
               frames[k].draw)
  }

  lemma CarriedOutAtPrefix<D>(c: Crypto, dev: Device<D>, tpm: TpmState<D>, frames: seq<Arrival>, m: nat, k: nat)
    requires m <= |frames| && CarriedOutAt(c, dev, tpm, frames[..m], k)
    ensures CarriedOutAt(c, dev, tpm, frames, k)
    ensures frames[..m][..k] == frames[..k] && frames[..m][..k + 1] == frames[..k + 1]
  {
    assert frames[..m][..k] == frames[..k] && frames[..m][..k + 1] == frames[..k + 1];
  }

  lemma LastCarriedOut<D>(c: Crypto, dev: Device<D>, tpm: TpmState<D>, frames: seq<Arrival>)
    requires frames != []
    requires var n := |frames| - 1;
      CarriesOut(c, dev, ServeAll(c, dev, tpm, frames[..n]), ServeAll(c, dev, tpm, frames), frames[n].frame,
                 frames[n].draw)
    ensures CarriedOutAt(c, dev, tpm, frames, |frames| - 1)
  {
    assert frames[..|frames| - 1 + 1] == frames;
  }

  /** Every record that frames have added is of one of them, carried out on the
      device as this then was. */
  lemma {:induction false} RecordIsOfStep<D>(c: Crypto, dev: Device<D>, tpm: TpmState<D>, frames: seq<Arrival>, i: nat)
    returns (k: nat)
    requires |tpm.log| <= i < |ServeAll(c, dev, tpm, frames).log|
    ensures CarriedOutAt(c, dev, tpm, frames, k) && |ServeAll(c, dev, tpm, frames[..k]).log| == i
    decreases |frames|
  {
    var n := |frames| - 1;
    var before, last := ServeAll(c, dev, tpm, frames[..n]), frames[n];
    ServeLogs(c, dev, before, last.frame, last.draw);
    if i < |before.log| {
      k := RecordIsOfStep(c, dev, tpm, frames[..n], i);
      CarriedOutAtPrefix(c, dev, tpm, frames, n, k);
    } else {
      k := n;
      LastCarriedOut(c, dev, tpm, frames);
    }
  }

  /** The record that the k-th frame left. */
  ghost function RecordAt<D>(c: Crypto, dev: Device<D>, tpm: TpmState<D>, frames: seq<Arrival>, k: nat): Entry
    requires CarriedOutAt(c, dev, tpm, frames, k)
  {
    ServeAll(c, dev, tpm, frames[..k + 1]).log[|ServeAll(c, dev, tpm, frames[..k]).log|]
  }

  /** Different frames leave different records, in the order of the frames. */
  lemma RecordsInOrder<D>(c: Crypto, dev: Device<D>, tpm: TpmState<D>, frames: seq<Arrival>, i: nat, k: nat)
    requires i < k && CarriedOutAt(c, dev, tpm, frames, i) && CarriedOutAt(c, dev, tpm, frames, k)
    ensures |ServeAll(c, dev, tpm, frames[..i]).log| < |ServeAll(c, dev, tpm, frames[..k]).log|
  {
    ServeAllGrows(c, dev, tpm, frames[..k], i + 1);
    assert frames[..k][..i + 1] == frames[..i + 1];
  }

  /** The record of a frame stays in the log. */
  lemma RecordStays<D>(c: Crypto, dev: Device<D>, tpm: TpmState<D>, frames: seq<Arrival>, k: nat)
    requires CarriedOutAt(c, dev, tpm, frames, k)
    ensures var log, i := ServeAll(c, dev, tpm, frames).log, |ServeAll(c, dev, tpm, frames[..k]).log|;
      |tpm.log| <= i < |log| && RecordAt(c, dev, tpm, frames, k) == log[i]
  {
    ServeAllGrows(c, dev, tpm, frames, k + 1);
    ServeAllExtends(c, dev, tpm, frames[..k]);
  }

  // ---------- what has become of a session since ----------

  /** Nonces of earlier days are where they were: in the hands of the sessions
      that held them, or on records of those sessions. */
  ghost predicate Inherits<D>(start: TpmState<D>, tpm: TpmState<D>, used: set<bytes>) {
    && start.log <= tpm.log
    && (forall g | g in tpm.sessions && tpm.sessions[g].nonceTpm in used ::
          g in start.sessions && start.sessions[g].nonceTpm == tpm.sessions[g].nonceTpm)
    && (forall i | |start.log| <= i < |tpm.log| && tpm.log[i].nonceBefore in used ::
          tpm.log[i].session in start.sessions
          && start.sessions[tpm.log[i].session].nonceTpm == tpm.log[i].nonceBefore)
  }

  lemma FewerInherits<D>(start: TpmState<D>, tpm: TpmState<D>, after: TpmState<D>, used: set<bytes>)
    requires Inherits(start, tpm, used)
    requires after.log == tpm.log && Fewer(tpm.sessions, after.sessions)
    ensures Inherits(start, after, used)
  {
  }

  lemma StartedInherits<D>(start: TpmState<D>, tpm: TpmState<D>, after: TpmState<D>, draw: Draw, used: set<bytes>)
    requires Inherits(start, tpm, used) && draw.nonce !in used
    requires after.log == tpm.log && Started(tpm.sessions, after.sessions, draw)
    ensures Inherits(start, after, used)
  {
  }

  lemma RolledInherits<D>(start: TpmState<D>, tpm: TpmState<D>, device: D, e: Entry, used: set<bytes>)
    requires Inherits(start, tpm, used) && e.nonceAfter !in used
    requires e.session in tpm.sessions && e.nonceBefore == tpm.sessions[e.session].nonceTpm
    ensures Inherits(start, Rolled(tpm, device, e), used)
  {
  }

  lemma ServeInherits<D>(c: Crypto, dev: Device<D>, start: TpmState<D>, tpm: TpmState<D>, frame: bytes, draw: Draw,
                         used: set<bytes>)
    requires Inherits(start, tpm, used) && draw.nonce !in used
    ensures Inherits(start, Serve(c, dev, tpm, frame, draw).tpm, used)
  {
    var after := Serve(c, dev, tpm, frame, draw).tpm;
    ServeEffect(c, dev, tpm, frame, draw);
    if CarriesOut(c, dev, tpm, after, frame, draw) {
      RolledInherits(start, tpm, after.device, after.log[|tpm.log|], used);
    } else if Started(tpm.sessions, after.sessions, draw) {
      StartedInherits(start, tpm, after, draw, used);
    } else {
      FewerInherits(start, tpm, after, used);
    }
  }

  /** One step, for one session: it is left alone, or it carries a command out. */
  ghost predicate SessionStep<D>(tpm: TpmState<D>, after: TpmState<D>, session: u32) {
    || (after.log == tpm.log && Keeps(tpm, after, session))
    || (&& |after.log| == |tpm.log| + 1 && tpm.log <= after.log
        && var e := after.log[|tpm.log|];
           if e.session == session
           then && session in tpm.sessions && e.alg == tpm.sessions[session].alg
                && e.nonceBefore == tpm.sessions[session].nonceTpm
                && (Continues(e.signed.attributes) ==>
                      session in after.sessions
                      && after.sessions[session] == tpm.sessions[session].(nonceTpm := e.nonceAfter))
           else Keeps(tpm, after, session))
  }

  lemma PlainSessionStep<D>(c: Crypto, dev: Device<D>, tpm: TpmState<D>, cmd: Command, draw: Draw, session: u32)
    requires !(cmd.code == CC_FLUSH_CONTEXT && FlushedHandle(cmd.params) == Some(session))
    ensures SessionStep(tpm, ServePlain(c, dev, tpm, cmd, draw).tpm, session)
  {
    PlainKeepsOthers(c, dev, tpm, cmd, draw, session);
  }

  lemma SignedSessionStep<D>(c: Crypto, dev: Device<D>, tpm: TpmState<D>, frame: bytes, cmd: Command, draw: Draw,
                             session: u32)
    requires cmd.auth.Some? && cmd.handles != []
    ensures SessionStep(tpm, ServeSession(c, dev, tpm, frame, cmd, draw).tpm, session)
  {
  }

  lemma ServeSessionStep<D>(c: Crypto, dev: Device<D>, tpm: TpmState<D>, frame: bytes, draw: Draw, session: u32)
    requires !Flushes(dev, frame, session)
    ensures SessionStep(tpm, Serve(c, dev, tpm, frame, draw).tpm, session)
  {
    var p := ReadCommand(dev.handleCount, frame);
    if p.Parsed? {
      var cmd := p.value;
      if cmd.auth.None? {
        PlainSessionStep(c, dev, tpm, cmd, draw, session);
      } else if cmd.handles != [] && cmd.auth.value.handle != RS_PW {
        SignedSessionStep(c, dev, tpm, frame, cmd, draw, session);
      }
    }
  }

  /** The nonce of a session after the records from the n-th on. */
  function LatestNonce(log: seq<Entry>, n: nat, session: u32, initial: bytes): bytes {
    if |log| <= n then initial
    else
      var e := log[|log| - 1];
      if e.session == session then e.nonceAfter else LatestNonce(log[..|log| - 1], n, session, initial)
  }

  lemma {:induction false} LatestIsLast(log: seq<Entry>, n: nat, session: u32, initial: bytes, j: nat)
    requires n <= j < |log| && log[j].session == session
    requires forall i | j < i < |log| :: log[i].session != session
    ensures LatestNonce(log, n, session, initial) == log[j].nonceAfter
  {
    if j < |log| - 1 {
      LatestIsLast(log[..|log| - 1], n, session, initial, j);
    }
  }

  lemma {:induction false} LatestOfNone(log: seq<Entry>, n: nat, session: u32, initial: bytes)
    requires forall i | n <= i < |log| :: log[i].session != session
    ensures LatestNonce(log, n, session, initial) == initial
  {
    if n < |log| {
      LatestOfNone(log[..|log| - 1], n, session, initial);
    }
  }

  /** A command of this session was carried out that was to end the session. */
  ghost predicate Ended<D>(start: TpmState<D>, tpm: TpmState<D>, session: u32)
    requires session in start.sessions
  {
    exists i :: |start.log| <= i < |tpm.log| && tpm.log[i].session == session
      && tpm.log[i].alg == start.sessions[session].alg && !Continues(tpm.log[i].signed.attributes)
  }

  /** The session is the one it was, with the nonce of its last record. */
  ghost predicate Intact<D>(start: TpmState<D>, tpm: TpmState<D>, session: u32)
    requires session in start.sessions
  {
    var t := start.sessions[session];
    && session in tpm.sessions
    && tpm.sessions[session] == t.(nonceTpm := LatestNonce(tpm.log, |start.log|, session, t.nonceTpm))
    && (forall i | |start.log| <= i < |tpm.log| && tpm.log[i].session == session :: tpm.log[i].alg == t.alg)
  }

  /** No record from the n-th on is of this session. */
  predicate NoneOf(log: seq<Entry>, n: nat, session: u32) {
    forall i | n <= i < |log| :: log[i].session != session
  }

  /** Some command was carried out at this nonce. */
  ghost predicate Spent(log: seq<Entry>, nonceTpm: bytes) {
    exists i :: 0 <= i < |log| && log[i].nonceBefore == nonceTpm
  }

  /** If any command of the session was carried out, the first one was at the
      nonce that the session had at the start. */
  ghost predicate Begun<D>(start: TpmState<D>, tpm: TpmState<D>, session: u32)
    requires session in start.sessions
  {
    NoneOf(tpm.log, |start.log|, session) || Spent(tpm.log, start.sessions[session].nonceTpm)
  }

  /** What may have become of the session while nobody flushed it. */
  ghost predicate Chained<D>(start: TpmState<D>, tpm: TpmState<D>, session: u32)
    requires session in start.sessions
  {
    && start.log <= tpm.log && (Ended(start, tpm, session) || Intact(start, tpm, session))
    && Begun(start, tpm, session)
  }

  lemma SpentStays(log: seq<Entry>, log': seq<Entry>, nonceTpm: bytes)
    requires Spent(log, nonceTpm) && log <= log'
    ensures Spent(log', nonceTpm)
  {
    var i :| 0 <= i < |log| && log[i].nonceBefore == nonceTpm;
    assert log'[i] == log[i];
  }

  lemma BegunStep<D>(start: TpmState<D>, tpm: TpmState<D>, after: TpmState<D>, session: u32)
    requires session in start.sessions && Chained(start, tpm, session) && SessionStep(tpm, after, session)
    ensures Begun(start, after, session)
  {
    if Spent(tpm.log, start.sessions[session].nonceTpm) {
      SpentStays(tpm.log, after.log, start.sessions[session].nonceTpm);
    } else if after.log != tpm.log && after.log[|tpm.log|].session == session {
      assert !Ended(start, tpm, session);
      LatestOfNone(tpm.log, |start.log|, session, start.sessions[session].nonceTpm);
      assert after.log[|tpm.log|].nonceBefore == start.sessions[session].nonceTpm;
    }
  }

  lemma ChainedStep<D>(start: TpmState<D>, tpm: TpmState<D>, after: TpmState<D>, session: u32)
    requires session in start.sessions && Chained(start, tpm, session) && SessionStep(tpm, after, session)
    ensures Chained(start, after, session)
  {
    BegunStep(start, tpm, after, session);
    if Ended(start, tpm, session) {
      var i :| |start.log| <= i < |tpm.log| && tpm.log[i].session == session
        && tpm.log[i].alg == start.sessions[session].alg && !Continues(tpm.log[i].signed.attributes);
      assert after.log[i] == tpm.log[i];
    } else if after.log != tpm.log {
      assert after.log[..|after.log| - 1] == tpm.log;
      var e := after.log[|tpm.log|];
      if e.session == session && !Continues(e.signed.attributes) {
        assert Ended(start, after, session);
      }
    }
  }

  /** Everything that holds since the start, whatever was served in between; the
      last only if it was calm, that is, if nobody flushed the session. */
  ghost predicate Since<D>(c: Crypto, dev: Device<D>, start: TpmState<D>, tpm: TpmState<D>, session: u32,
                           used: set<bytes>, drawn: set<bytes>, calm: bool)
    requires session in start.sessions
  {
    && Sound(c, dev, tpm, used + drawn)
    && Inherits(start, tpm, used)
    && (calm ==> Chained(start, tpm, session))
  }

  lemma ServeSince<D>(c: Crypto, dev: Device<D>, start: TpmState<D>, tpm: TpmState<D>, frame: bytes, draw: Draw,
                      session: u32, used: set<bytes>, drawn: set<bytes>, calm: bool)
    requires session in start.sessions && Since(c, dev, start, tpm, session, used, drawn, calm)
    requires draw.nonce !in used + drawn && (calm ==> !Flushes(dev, frame, session))
    ensures Since(c, dev, start, Serve(c, dev, tpm, frame, draw).tpm, session, used, drawn + {draw.nonce}, calm)
  {
    ServeSound(c, dev, tpm, frame, draw, used + drawn);
    assert used + drawn + {draw.nonce} == used + (drawn + {draw.nonce});
    ServeInherits(c, dev, start, tpm, frame, draw, used);
    if calm {
      ServeSessionStep(c, dev, tpm, frame, draw, session);
      ChainedStep(start, tpm, Serve(c, dev, tpm, frame, draw).tpm, session);
    }
  }

  ghost predicate FlushFree<D>(dev: Device<D>, frames: seq<Arrival>, session: u32) {
    forall i | 0 <= i < |frames| :: !Flushes(dev, frames[i].frame, session)
  }

  lemma FlushFreeInit<D>(dev: Device<D>, frames: seq<Arrival>, session: u32)
    requires frames != [] && FlushFree(dev, frames, session)
    ensures FlushFree(dev, frames[..|frames| - 1], session)
    ensures !Flushes(dev, frames[|frames| - 1].frame, session)
  {
  }

  lemma {:induction false} ServeAllSince<D>(
    c: Crypto, dev: Device<D>, start: TpmState<D>, tpm: TpmState<D>, frames: seq<Arrival>,
    session: u32, used: set<bytes>, drawn: set<bytes>, calm: bool)
    requires session in start.sessions && Since(c, dev, start, tpm, session, used, drawn, calm)
    requires FreshDraws(frames, used + drawn) && (calm ==> FlushFree(dev, frames, session))
    ensures Since(c, dev, start, ServeAll(c, dev, tpm, frames), session, used, drawn + DrawnNonces(frames), calm)
  {
    if frames == [] {
      assert drawn + DrawnNonces(frames) == drawn;
    } else {
      var n := |frames| - 1;
      var init, last := frames[..n], frames[n];
      LastDrawIsFresh(frames, used + drawn);
      if calm {
        FlushFreeInit(dev, frames, session);
      }
      ServeAllSince(c, dev, start, tpm, init, session, used, drawn, calm);
      ServeLastSince(c, dev, start, ServeAll(c, dev, tpm, init), last, session, used, drawn, DrawnNonces(init), calm);
      assert drawn + (DrawnNonces(init) + {last.draw.nonce}) == drawn + DrawnNonces(frames);
    }
  }

  lemma ServeLastSince<D>(c: Crypto, dev: Device<D>, start: TpmState<D>, tpm: TpmState<D>, last: Arrival,
                          session: u32, used: set<bytes>, drawn: set<bytes>, more: set<bytes>, calm: bool)
    requires session in start.sessions && Since(c, dev, start, tpm, session, used, drawn + more, calm)
    requires last.draw.nonce !in used + drawn + more && (calm ==> !Flushes(dev, last.frame, session))
    ensures Since(c, dev, start, Serve(c, dev, tpm, last.frame, last.draw).tpm, session, used,
                  drawn + (more + {last.draw.nonce}), calm)
  {
    ServeSince(c, dev, start, tpm, last.frame, last.draw, session, used, drawn + more, calm);
    assert drawn + more + {last.draw.nonce} == drawn + (more + {last.draw.nonce});
  }
}
