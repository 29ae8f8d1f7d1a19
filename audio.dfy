/**
 * The voice activity loop of PlantAI/interface/audio.py (`vad`): audio
 * arrives in chunks; chunks with speech are collected into an utterance,
 * a pause longer than the configured one ends it, and the transcript of a
 * finished utterance is either checked for the wakeword or, after a
 * wakeword, taken as a command. A wakeword that no command follows in time
 * expires.
 *
 * The speech detector, the clock and the speech-to-text model are inputs:
 * each frame says whether its chunk holds speech and when it was read, and
 * the transcription is a function handed to the loop.
 */
module Audio {
  import opened Substrings

  type Bytes = seq<bv8>

  /** speechPause, wakewordTimeout and wakeword from the configuration; times are in clock ticks. */
  datatype Config = Config(pause: int, timeout: int, wakeword: string)

  /** One turn of the loop: the chunk read, whether the detector found speech in it, and the time. */
  datatype Frame = Frame(hasSpeech: bool, chunk: Bytes, now: int)

  /** The loop's variables. */
  datatype VadState = VadState(
    speechDetected: bool,
    lastSpeech: int,
    wakewordDetected: bool,
    lastWakeword: int,
    listSpeech: seq<Bytes>)

  /** What a turn reports: the log lines it writes, and whether the greeting is played. */
  datatype Event =
    | Silence
    | VoiceDetected
    | CommandRecorded(command: string)
    | WakewordRecorded(transcript: string, detected: bool)
    | CommandTimeout

  datatype Transition = Transition(state: VadState, event: Event)

  /** The variables as the loop starts. */
  const Initial: VadState := VadState(false, 0, false, 0, [])

  /** The buffer is empty whenever no utterance is in progress. */
  predicate Quiescent(s: VadState) {
    !s.speechDetected ==> s.listSpeech == []
  }

  /** b''.join(chunks): the chunks one after another. */
  function Join(chunks: seq<Bytes>): Bytes
    decreases |chunks|
  {
    if chunks == [] then [] else chunks[0] + Join(chunks[1..])
  }

  /** Joining one chunk more puts it at the end. */
  lemma {:induction false} JoinAppend(chunks: seq<Bytes>, c: Bytes)
    ensures Join(chunks + [c]) == Join(chunks) + c
    decreases |chunks|
  {
    if chunks == [] {
      assert [c][1..] == [];
    } else {
      assert (chunks + [c])[1..] == chunks[1..] + [c];
      JoinAppend(chunks[1..], c);
    }
  }

  /** One turn of the loop. */
  function Step(cfg: Config, transcribe: Bytes -> string, s: VadState, f: Frame): (t: Transition)
    ensures Quiescent(s) ==> Quiescent(t.state)
  {
    if f.hasSpeech then
      Transition(
        s.(listSpeech := s.listSpeech + [f.chunk], speechDetected := true, lastSpeech := f.now),
        if s.speechDetected then Silence else VoiceDetected)
    else if s.speechDetected then
      if f.now - s.lastSpeech > cfg.pause then
        var text := transcribe(Join(s.listSpeech));
        var ended := s.(speechDetected := false, listSpeech := []);
        if s.wakewordDetected then
          Transition(ended.(wakewordDetected := false), CommandRecorded(text))
        else if Contains(text, cfg.wakeword) then
          Transition(ended.(wakewordDetected := true, lastWakeword := f.now), WakewordRecorded(text, true))
        else
          Transition(ended, WakewordRecorded(text, false))
      else
        Transition(s, Silence)
    else if s.wakewordDetected && f.now - s.lastWakeword > cfg.timeout then
      Transition(s.(wakewordDetected := false), CommandTimeout)
    else
      Transition(s, Silence)
  }

  /** The state after the given frames and the events of each turn, in order. */
  function Run(cfg: Config, transcribe: Bytes -> string, frames: seq<Frame>): (r: (VadState, seq<Event>))
    ensures |r.1| == |frames|
    decreases |frames|
  {
    if frames == [] then (Initial, [])
    else
      var before := Run(cfg, transcribe, frames[..|frames| - 1]);
      var t := Step(cfg, transcribe, before.0, frames[|frames| - 1]);
      (t.state, before.1 + [t.event])
  }

  /** The loop of `vad`, over the frames it reads. */
  method Vad(cfg: Config, transcribe: Bytes -> string, frames: seq<Frame>) returns (final: VadState, events: seq<Event>)
    ensures (final, events) == Run(cfg, transcribe, frames)
    ensures Quiescent(final)
  {
    var speechDetected := false;
    var lastSpeech := 0;
    var wakewordDetected := false;
    var lastWakeword := 0;
    var listSpeech: seq<Bytes> := [];
    events := [];
    var i := 0;
    while i < |frames|
      invariant 0 <= i <= |frames|
      invariant (VadState(speechDetected, lastSpeech, wakewordDetected, lastWakeword, listSpeech), events) ==
        Run(cfg, transcribe, frames[..i])
    {
      var frame := frames[i];
      var event := Silence;
      if frame.hasSpeech {
        listSpeech := listSpeech + [frame.chunk];
        if !speechDetected {
          event := VoiceDetected;
        }
        speechDetected := true;
        lastSpeech := frame.now;
      } else {
        var now := frame.now;
        if speechDetected {
          if now - lastSpeech > cfg.pause {
            speechDetected := false;
            var combinedSpeech := Join(listSpeech);
            listSpeech := [];
            var convertedSpeech := transcribe(combinedSpeech);
            if wakewordDetected {
              wakewordDetected := false;
              event := CommandRecorded(convertedSpeech);
            } else {
              var detected := Contains(convertedSpeech, cfg.wakeword);
              if detected {
                wakewordDetected := true;
                lastWakeword := now;
              }
              event := WakewordRecorded(convertedSpeech, detected);
            }
          }
        } else if wakewordDetected {
          if now - lastWakeword > cfg.timeout {
            wakewordDetected := false;
            event := CommandTimeout;
          }
        }
      }
      assert frames[..i + 1][..i] == frames[..i];
      events := events + [event];
      i := i + 1;
    }
    assert frames[..i] == frames;
    final := VadState(speechDetected, lastSpeech, wakewordDetected, lastWakeword, listSpeech);
    RunQuiescent(cfg, transcribe, frames);
  }

  // ---------------------------------------------------------------------------
  // One turn

  /** A chunk with speech is appended to the buffer and marks the time; the wakeword is left alone. */
  lemma SpeechIsBuffered(cfg: Config, transcribe: Bytes -> string, s: VadState, f: Frame)
    requires f.hasSpeech
    ensures var t := Step(cfg, transcribe, s, f);
      t.state.speechDetected && t.state.lastSpeech == f.now &&
      t.state.listSpeech == s.listSpeech + [f.chunk] &&
      t.state.wakewordDetected == s.wakewordDetected && t.state.lastWakeword == s.lastWakeword &&
      (t.event == VoiceDetected <==> !s.speechDetected)
  {
  }

  /**
   * Silence after a pause longer than the configured one ends the utterance:
   * the buffer is emptied and the transcript is that of all its chunks in order.
   */
  lemma PauseEndsUtterance(cfg: Config, transcribe: Bytes -> string, s: VadState, f: Frame)
    requires !f.hasSpeech && s.speechDetected && f.now - s.lastSpeech > cfg.pause
    ensures var t := Step(cfg, transcribe, s, f);
      var text := transcribe(Join(s.listSpeech));
      !t.state.speechDetected && t.state.listSpeech == [] && t.state.lastSpeech == s.lastSpeech &&
      (t.event == CommandRecorded(text) || t.event.WakewordRecorded?) &&
      (t.event.WakewordRecorded? ==> t.event.transcript == text)
  {
  }

  /** Silence no longer than the pause changes nothing while an utterance is in progress. */
  lemma ShortPauseChangesNothing(cfg: Config, transcribe: Bytes -> string, s: VadState, f: Frame)
    requires !f.hasSpeech && s.speechDetected && f.now - s.lastSpeech <= cfg.pause
    ensures Step(cfg, transcribe, s, f) == Transition(s, Silence)
  {
  }

  /** An utterance ending after a wakeword is the command, and it uses the wakeword up. */
  lemma CommandConsumesWakeword(cfg: Config, transcribe: Bytes -> string, s: VadState, f: Frame)
    requires !f.hasSpeech && s.speechDetected && f.now - s.lastSpeech > cfg.pause
    requires s.wakewordDetected
    ensures var t := Step(cfg, transcribe, s, f);
      !t.state.wakewordDetected && t.state.lastWakeword == s.lastWakeword &&
      t.event == CommandRecorded(transcribe(Join(s.listSpeech)))
  {
  }

  /**
   * Without a pending wakeword, an utterance arms the wakeword, at the time
   * of its end, exactly when the wakeword occurs in its transcript.
   */
  lemma WakewordRecognised(cfg: Config, transcribe: Bytes -> string, s: VadState, f: Frame)
    requires !f.hasSpeech && s.speechDetected && f.now - s.lastSpeech > cfg.pause
    requires !s.wakewordDetected
    ensures var t := Step(cfg, transcribe, s, f);
      var text := transcribe(Join(s.listSpeech));
      t.event == WakewordRecorded(text, Contains(text, cfg.wakeword)) &&
      (t.state.wakewordDetected <==> Contains(text, cfg.wakeword)) &&
      t.state.lastWakeword == (if Contains(text, cfg.wakeword) then f.now else s.lastWakeword)
  {
  }

  /** Silence outside an utterance expires an armed wakeword exactly when it is older than the timeout. */
  lemma WakewordExpires(cfg: Config, transcribe: Bytes -> string, s: VadState, f: Frame)
    requires !f.hasSpeech && !s.speechDetected && s.wakewordDetected
    ensures var t := Step(cfg, transcribe, s, f);
      (!t.state.wakewordDetected <==> f.now - s.lastWakeword > cfg.timeout) &&
      (t.event == CommandTimeout <==> f.now - s.lastWakeword > cfg.timeout) &&
      t.state == s.(wakewordDetected := t.state.wakewordDetected)
  {
  }

  /** The timeout is not looked at during an utterance: the wakeword changes only when one ends. */
  lemma NoTimeoutDuringSpeech(cfg: Config, transcribe: Bytes -> string, s: VadState, f: Frame)
    requires s.speechDetected
    ensures var t := Step(cfg, transcribe, s, f);
      t.state.speechDetected ==>
        t.state.wakewordDetected == s.wakewordDetected && t.state.lastWakeword == s.lastWakeword
    ensures Step(cfg, transcribe, s, f).event != CommandTimeout
  {
  }

  // ---------------------------------------------------------------------------
  // Many turns

  /** The buffer is empty whenever no utterance is in progress, after any frames. */
  lemma {:induction false} RunQuiescent(cfg: Config, transcribe: Bytes -> string, frames: seq<Frame>)
    ensures Quiescent(Run(cfg, transcribe, frames).0)
    decreases |frames|
  {
    if frames != [] {
      RunQuiescent(cfg, transcribe, frames[..|frames| - 1]);
    }
  }

  /** The chunks of the given frames, in order. */
  function Chunks(frames: seq<Frame>): seq<Bytes> {
    seq(|frames|, i requires 0 <= i < |frames| => frames[i].chunk)
  }

  /** The chunks of frames one after another are the chunks of each part one after another. */
  lemma ChunksAppend(a: seq<Frame>, b: seq<Frame>)
    ensures Chunks(a + b) == Chunks(a) + Chunks(b)
  {
  }

  /**
   * A run of frames with speech adds their chunks to the buffer in order, and
   * the utterance is in progress after it; the wakeword is untouched.
   */
  lemma {:induction false} SpeechAccumulates(cfg: Config, transcribe: Bytes -> string, before: seq<Frame>, speech: seq<Frame>)
    requires forall i :: 0 <= i < |speech| ==> speech[i].hasSpeech
    ensures var s := Run(cfg, transcribe, before).0;
      var t := Run(cfg, transcribe, before + speech).0;
      t.listSpeech == s.listSpeech + Chunks(speech) &&
      t.wakewordDetected == s.wakewordDetected && t.lastWakeword == s.lastWakeword &&
      (speech != [] ==> t.speechDetected && t.lastSpeech == speech[|speech| - 1].now)
    decreases |speech|
  {
    if speech == [] {
      assert before + speech == before;
    } else {
      var n := |speech| - 1;
      var s0 := Run(cfg, transcribe, before).0;
      var m := Run(cfg, transcribe, before + speech[..n]).0;
      assert m.listSpeech == s0.listSpeech + Chunks(speech[..n]) &&
        m.wakewordDetected == s0.wakewordDetected && m.lastWakeword == s0.lastWakeword by {
        SpeechAccumulates(cfg, transcribe, before, speech[..n]);
      }
      var t := Step(cfg, transcribe, m, speech[n]).state;
      assert Run(cfg, transcribe, before + speech).0 == t by {
        assert before + speech == (before + speech[..n]) + [speech[n]];
        RunAppend(cfg, transcribe, before + speech[..n], speech[n]);
      }
      assert t.listSpeech == m.listSpeech + [speech[n].chunk] && t.speechDetected && t.lastSpeech == speech[n].now &&
        t.wakewordDetected == m.wakewordDetected && t.lastWakeword == m.lastWakeword by {
        SpeechIsBuffered(cfg, transcribe, m, speech[n]);
      }
      assert Chunks(speech) == Chunks(speech[..n]) + [speech[n].chunk] by {
        assert speech == speech[..n] + [speech[n]];
        ChunksAppend(speech[..n], [speech[n]]);
      }
    }
  }

  /** One frame more is one turn more. */
  lemma RunAppend(cfg: Config, transcribe: Bytes -> string, frames: seq<Frame>, f: Frame)
    ensures var r := Run(cfg, transcribe, frames); var t := Step(cfg, transcribe, r.0, f);
      Run(cfg, transcribe, frames + [f]) == (t.state, r.1 + [t.event])
  {
    assert (frames + [f])[..|frames|] == frames;
  }

  /** Speech heard from silence fills the empty buffer with exactly its chunks. */
  lemma UtteranceHeard(cfg: Config, transcribe: Bytes -> string, before: seq<Frame>, speech: seq<Frame>)
    requires !Run(cfg, transcribe, before).0.speechDetected
    requires speech != [] && forall i :: 0 <= i < |speech| ==> speech[i].hasSpeech
    ensures var s := Run(cfg, transcribe, before).0;
      var m := Run(cfg, transcribe, before + speech).0;
      m.listSpeech == Chunks(speech) && m.speechDetected && m.lastSpeech == speech[|speech| - 1].now &&
      m.wakewordDetected == s.wakewordDetected
  {
    RunQuiescent(cfg, transcribe, before);
    SpeechAccumulates(cfg, transcribe, before, speech);
  }

  /**
   * An utterance heard from silence and ended by a long enough pause is
   * transcribed as all its chunks in order, and taken as the command when a
   * wakeword was pending, otherwise checked for the wakeword.
   */
  lemma UtteranceIsTranscribed(cfg: Config, transcribe: Bytes -> string, before: seq<Frame>, speech: seq<Frame>, pause: Frame)
    requires !Run(cfg, transcribe, before).0.speechDetected
    requires speech != [] && forall i :: 0 <= i < |speech| ==> speech[i].hasSpeech
    requires !pause.hasSpeech && pause.now - speech[|speech| - 1].now > cfg.pause
    ensures var s := Run(cfg, transcribe, before).0;
      var events := Run(cfg, transcribe, before + speech + [pause]).1;
      var text := transcribe(Join(Chunks(speech)));
      events[|events| - 1] ==
        if s.wakewordDetected then CommandRecorded(text) else WakewordRecorded(text, Contains(text, cfg.wakeword))
  {
    var s := Run(cfg, transcribe, before).0;
    var m := Run(cfg, transcribe, before + speech).0;
    var text := transcribe(Join(Chunks(speech)));
    UtteranceHeard(cfg, transcribe, before, speech);
    var t := Step(cfg, transcribe, m, pause);
    assert t.event == if s.wakewordDetected then CommandRecorded(text) else WakewordRecorded(text, Contains(text, cfg.wakeword)) by {
      if s.wakewordDetected {
        CommandConsumesWakeword(cfg, transcribe, m, pause);
      } else {
        WakewordRecognised(cfg, transcribe, m, pause);
      }
    }
    var events := Run(cfg, transcribe, before + speech + [pause]).1;
    assert events == Run(cfg, transcribe, before + speech).1 + [t.event] by {
      RunAppend(cfg, transcribe, before + speech, pause);
    }
  }
}
