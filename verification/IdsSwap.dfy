/**
 Starting the agent and switching its detection engine while it runs: at most one of the two
 engines may be live, and the configuration file should name the engine a restart would choose.
 */
module IdsSwap {
  import opened Text
  import opened Lines
  import opened FlatYaml
  import opened FlatYamlText
  import opened Rules

  const BUILTIN := "builtin"
  const SURICATA := "suricata"
  const FALLBACK := "builtin (fallback \U{2014} eve.json missing)"
  const MODE_KEY := "ids_mode"
  const EVE_KEY := "eve_json_path"
  const DEFAULT_EVE := "/var/log/suricata/eve.json"

  /** A running engine is known by the file it follows. */
  datatype State = State(
    file: Option<string>,
    mode: string,
    adapter: Option<string>,
    tailer: Option<string>,
    watchFile: string,
    evePath: string,
    rules: RuleConfig)

  /** What the environment decides during one call. */
  datatype Env = Env(persists: bool, eveExists: bool, starts: bool, restores: bool)

  datatype Reply = Done | InvalidMode | AlreadyThere | WriteFailed | EveMissing | StartFailed

  // ---- The switch and the start as functions ------------------------------------------------------

  function SettingsOf(file: Option<string>): map<string, string> {
    if file.None? then map[] else ParseFlat(GetLines(file.value))
  }

  function FieldOf(file: Option<string>, key: string, default: string): string {
    if file.None? then default else ValueOn(FirstLine(GetLines(file.value), key), default)
  }

  function Save(file: Option<string>, opens: bool, mode: string): Option<string> {
    if file.Some? && opens then Some(WriteText(file.value, MODE_KEY, mode)) else file
  }

  /** Starting the new engine, the old ones being gone and the new mode saved. */
  function Launch(s: State, newMode: string, env: Env): (State, Reply) {
    if newMode == SURICATA then
      if !env.eveExists then (s.(file := Save(s.file, env.restores, BUILTIN)), EveMissing)
      else if !env.starts then
        (s.(file := Save(s.file, env.restores, BUILTIN), watchFile := s.evePath), StartFailed)
      else (s.(adapter := Some(s.evePath), watchFile := s.evePath, mode := SURICATA), Done)
    else
      var loaded := s.(rules := FromYaml(SettingsOf(s.file)));
      if !env.starts then (loaded.(file := Save(s.file, env.restores, SURICATA)), StartFailed)
      else (loaded.(tailer := Some(s.watchFile), mode := BUILTIN), Done)
  }

  function Swap(s: State, newMode: string, env: Env): (State, Reply) {
    if newMode != BUILTIN && newMode != SURICATA then (s, InvalidMode)
    else if newMode == s.mode then (s, AlreadyThere)
    else
      var down := s.(adapter := None, tailer := None);
      if s.file.None? || !env.persists then (down, WriteFailed)
      else Launch(down.(file := Save(s.file, true, newMode)), newMode, env)
  }

  /** The agent's start; `None` when the engine does not start and the agent exits. */
  function Boot(file: Option<string>, watch: string, env: Env): Option<State> {
    var eve := FieldOf(file, EVE_KEY, DEFAULT_EVE);
    var wanted := FieldOf(file, MODE_KEY, BUILTIN);
    var rules := FromYaml(SettingsOf(file));
    if !env.starts then None
    else if wanted != SURICATA then Some(State(file, BUILTIN, None, Some(watch), watch, eve, rules))
    else if env.eveExists then Some(State(file, SURICATA, Some(eve), None, watch, eve, rules))
    else
      var saved := Save(file, env.persists, BUILTIN);
      Some(State(saved, FALLBACK, None, Some(watch), watch, eve, rules))
  }

  /** The two engine slots, as they are between two assignments to them. */
  datatype Engines = Engines(adapter: Option<string>, tailer: Option<string>)

  function EnginesOf(s: State): Engines {
    Engines(s.adapter, s.tailer)
  }

  /** The slots that starting the new engine passes through: it is gone again if it does not start. */
  function Tried(s: State, newMode: string, env: Env): seq<Engines> {
    if newMode == SURICATA && !env.eveExists then []
    else
      var up := if newMode == SURICATA then Engines(Some(s.evePath), None) else Engines(None, Some(s.watchFile));
      [up] + if env.starts then [] else [Engines(None, None)]
  }

  /** The slots a switch passes through: first the tear-down, one engine after the other. */
  function Passed(s: State, newMode: string, env: Env): seq<Engines> {
    if (newMode != BUILTIN && newMode != SURICATA) || newMode == s.mode then []
    else
      [Engines(None, s.tailer), Engines(None, None)]
        + if s.file.None? || !env.persists then [] else Tried(s, newMode, env)
  }

  // ---- What must hold between two calls --------------------------------------------------------------

  predicate AtMostOne(e: Engines) {
    e.adapter.None? || e.tailer.None?
  }

  predicate Agrees(s: State) {
    && AtMostOne(EnginesOf(s))
    && (s.mode == BUILTIN || s.mode == SURICATA || s.mode == FALLBACK)
    && (s.adapter.Some? ==> s.mode == SURICATA)
    && (s.tailer.Some? ==> s.mode != SURICATA)
  }

  // ---- The agent ----------------------------------------------------------------------------------------

  class IdsAgent {
    var file: Option<string>
    var mode: string
    var adapter: Option<string>
    var tailer: Option<string>
    var watchFile: string
    var evePath: string
    var rules: RuleConfig
    // Every pair of engines the agent has had, from its start on, in order.
    ghost var trail: seq<Engines>

    ghost function Snapshot(): State
      reads this
    {
      State(file, mode, adapter, tailer, watchFile, evePath, rules)
    }

    constructor (file: Option<string>, watch: string)
      ensures this.file == file && watchFile == watch && adapter.None? && tailer.None?
    {
      this.file := file;
      watchFile := watch;
      mode, evePath := BUILTIN, DEFAULT_EVE;
      adapter, tailer := None, None;
      rules := FromYaml(map[]);
      trail := [];
    }

    method SetEngines(adapter: Option<string>, tailer: Option<string>)
      modifies this`adapter, this`tailer, this`trail
      ensures this.adapter == adapter && this.tailer == tailer
      ensures trail == old(trail) + [Engines(adapter, tailer)]
    {
      this.adapter, this.tailer := adapter, tailer;
      trail := trail + [Engines(adapter, tailer)];
    }

    method Start(env: Env) returns (running: bool)
      requires adapter.None? && tailer.None?
      modifies this
      ensures var booted := Boot(old(file), old(watchFile), env);
              trail == old(trail) + if booted.Some? then [EnginesOf(booted.value)] else []
      ensures var booted := Boot(old(file), old(watchFile), env);
              if booted.Some? then running && Snapshot() == booted.value
              else !running && adapter.None? && tailer.None?
    {
      hide GetLines, FirstLine, LastLine, ParseFlat, ValueOn, WriteText, FromYaml;
      var settings := ParseFlatYaml(file);
      rules := FromYaml(settings);
      var wanted := ReadYamlField(file, MODE_KEY, BUILTIN);
      evePath := ReadYamlField(file, EVE_KEY, DEFAULT_EVE);
      if wanted != SURICATA {
        wanted := BUILTIN;
      }
      mode := wanted;
      if wanted == SURICATA {
        if !env.eveExists {
          var _, saved := WriteYamlField(file, env.persists, MODE_KEY, BUILTIN);
          file := saved;
          mode := FALLBACK;
          wanted := BUILTIN;
        } else if env.starts {
          SetEngines(Some(evePath), tailer);
        } else {
          return false;
        }
      }
      if wanted == BUILTIN {
        if !env.starts {
          return false;
        }
        SetEngines(adapter, Some(watchFile));
      }
      return true;
    }

    method TearDown()
      modifies this`adapter, this`tailer, this`trail
      ensures adapter.None? && tailer.None?
      ensures trail == old(trail) + [Engines(None, old(tailer)), Engines(None, None)]
    {
      SetEngines(None, tailer);
      SetEngines(None, None);
    }

    /** Takes back the mode that was saved. */
    method RollBack(mode: string, opens: bool)
      requires file.Some?
      modifies this`file
      ensures file == Save(old(file), opens, mode)
    {
      var _, saved := WriteYamlField(file, opens, MODE_KEY, mode);
      file := saved;
    }

    method LaunchAdapter(env: Env) returns (reply: Reply)
      requires adapter.None? && tailer.None? && file.Some?
      modifies this
      ensures (Snapshot(), reply) == Launch(old(Snapshot()), SURICATA, env)
      ensures trail == old(trail) + Tried(old(Snapshot()), SURICATA, env)
    {
      hide Save, FromYaml, SettingsOf;
      if !env.eveExists {
        RollBack(BUILTIN, env.restores);
        return EveMissing;
      }
      watchFile := evePath;
      SetEngines(Some(evePath), tailer);
      if !env.starts {
        SetEngines(None, tailer);
        RollBack(BUILTIN, env.restores);
        return StartFailed;
      }
      mode := SURICATA;
      return Done;
    }

    method LaunchTailer(env: Env) returns (reply: Reply)
      requires adapter.None? && tailer.None? && file.Some?
      modifies this
      ensures (Snapshot(), reply) == Launch(old(Snapshot()), BUILTIN, env)
      ensures trail == old(trail) + Tried(old(Snapshot()), BUILTIN, env)
    {
      hide Save, FromYaml, GetLines, ParseFlat;
      var settings := ParseFlatYaml(file);
      rules := FromYaml(settings);
      SetEngines(adapter, Some(watchFile));
      if !env.starts {
        SetEngines(adapter, None);
        RollBack(SURICATA, env.restores);
        return StartFailed;
      }
      mode := BUILTIN;
      return Done;
    }

    method DoIdsSwap(newMode: string, env: Env) returns (reply: Reply)
      modifies this
      ensures (Snapshot(), reply) == Swap(old(Snapshot()), newMode, env)
      ensures trail == old(trail) + Passed(old(Snapshot()), newMode, env)
    {
      hide GetLines, WriteText, Launch, Tried;
      if newMode != BUILTIN && newMode != SURICATA {
        return InvalidMode;
      }
      if newMode == mode {
        return AlreadyThere;
      }
      TearDown();
      var ok, saved := WriteYamlField(file, env.persists, MODE_KEY, newMode);
      if !ok {
        return WriteFailed;
      }
      file := saved;
      TriedIgnoresTheRest(old(Snapshot()), Snapshot(), newMode, env);
      if newMode == SURICATA {
        reply := LaunchAdapter(env);
      } else {
        reply := LaunchTailer(env);
      }
    }
  }

  lemma TriedIgnoresTheRest(s: State, t: State, newMode: string, env: Env)
    requires s.evePath == t.evePath && s.watchFile == t.watchFile
    ensures Tried(s, newMode, env) == Tried(t, newMode, env)
  {
  }

  // ---- Runs -----------------------------------------------------------------------------------------------

  datatype Call = Call(newMode: string, env: Env)

  function Run(s: State, calls: seq<Call>): State {
    if calls == [] then s
    else
      var n := |calls| - 1;
      Swap(Run(s, calls[..n]), calls[n].newMode, calls[n].env).0
  }

  /**
   Whatever is asked for and whatever fails, there are never two live engines and none that
   contradicts the reported mode.
   */
  lemma {:induction false} RunAgrees(file: Option<string>, watch: string, env: Env, calls: seq<Call>)
    ensures var booted := Boot(file, watch, env);
            booted.Some? ==> Agrees(booted.value) && Agrees(Run(booted.value, calls))
  {
    hide Save, FieldOf, SettingsOf, Swap;
    var booted := Boot(file, watch, env);
    if booted.Some? && calls != [] {
      var n := |calls| - 1;
      RunAgrees(file, watch, env, calls[..n]);
      SwapKeepsAgrees(Run(booted.value, calls[..n]), calls[n].newMode, calls[n].env);
    }
  }

  /** All the engine slots that a run passes through. */
  function Trail(s: State, calls: seq<Call>): seq<Engines> {
    if calls == [] then [EnginesOf(s)]
    else
      var n := |calls| - 1;
      Trail(s, calls[..n]) + Passed(Run(s, calls[..n]), calls[n].newMode, calls[n].env)
  }

  /** The switch leaves the slots it passed through last. */
  lemma PassedEndsInState(s: State, newMode: string, env: Env)
    ensures var passed := Passed(s, newMode, env);
            EnginesOf(Swap(s, newMode, env).0) == if passed == [] then EnginesOf(s) else passed[|passed| - 1]
  {
    hide Save, SettingsOf, FromYaml;
  }

  /**
   Not even in the middle of a switch are there two engines, and the slots that a run passes
   through lead from those at the start to those at the end.
   */
  lemma {:induction false} NeverTwoEngines(s: State, calls: seq<Call>)
    requires AtMostOne(EnginesOf(s))
    ensures forall e :: e in Trail(s, calls) ==> AtMostOne(e)
    ensures Trail(s, calls) != [] && Trail(s, calls)[|Trail(s, calls)| - 1] == EnginesOf(Run(s, calls))
  {
    hide Swap, AtMostOne, Passed;
    if calls != [] {
      var n := |calls| - 1;
      var before := Run(s, calls[..n]);
      NeverTwoEngines(s, calls[..n]);
      assert EnginesOf(before) in Trail(s, calls[..n]);
      PassedEndsInState(before, calls[n].newMode, calls[n].env);
      PassedIsExclusive(before, calls[n].newMode, calls[n].env);
    }
  }

  lemma PassedIsExclusive(s: State, newMode: string, env: Env)
    requires AtMostOne(EnginesOf(s))
    ensures forall e :: e in Passed(s, newMode, env) ==> AtMostOne(e)
  {
    hide Swap;
  }

  /** After a start exactly one engine is live. */
  lemma BootIsLive(file: Option<string>, watch: string, env: Env)
    ensures var booted := Boot(file, watch, env);
            booted.Some? ==> booted.value.adapter.Some? != booted.value.tailer.Some?
  {
    hide Save, FieldOf, SettingsOf;
  }

  // ---- What a write of the mode does to the file --------------------------------------------------------

  /** The agent reads the mode from a line that the writer does not recognise. */
  predicate Stuck(file: Option<string>) {
    file.Some? && FirstStuck(GetLines(file.value), MODE_KEY)
  }

  /** The rule engine does, although the writer recognises another. */
  predicate RulesStuck(file: Option<string>) {
    file.Some? && LastStuck(GetLines(file.value), MODE_KEY)
  }

  lemma Names()
    ensures PlainKey(MODE_KEY) && '\r' !in MODE_KEY && PlainValue(BUILTIN) && PlainValue(SURICATA)
  {
    hide ReaderTrim;
    PlainWord(MODE_KEY);
    PlainWord(BUILTIN);
    PlainWord(SURICATA);
  }

  function ModeOn(file: Option<string>): string {
    FieldOf(file, MODE_KEY, BUILTIN)
  }

  /** What the agent reads after writing a mode, for any file. */
  lemma SaveIsRead(file: Option<string>, opens: bool, mode: string)
    requires mode == BUILTIN || mode == SURICATA
    ensures var saved := Save(file, opens, mode);
            && ModeOn(saved) == (if file.None? || !opens || Stuck(file) then ModeOn(file) else mode)
            && Stuck(saved) == Stuck(file) && saved.Some? == file.Some?
  {
    hide WriteText, GetLines, FirstLine, LastLine, ParseFlat, PlainKey, PlainValue, FirstStuck, LastStuck;
    Names();
    if file.Some? && opens {
      WriteEffect(file.value, MODE_KEY, mode, BUILTIN);
    }
  }

  /** What the rule engine reads then. */
  lemma SaveIsParsed(file: Option<string>, mode: string)
    requires mode == BUILTIN || mode == SURICATA
    requires file.Some?
    ensures var settings := SettingsOf(file);
            SettingsOf(Save(file, true, mode))
            == settings[MODE_KEY := if RulesStuck(file) && MODE_KEY in settings then settings[MODE_KEY] else mode]
    ensures RulesStuck(file) ==> MODE_KEY in SettingsOf(file)
  {
    hide WriteText, GetLines, FirstLine, LastLine, ParseFlat, PlainKey, PlainValue, FirstStuck, Found, Stale;
    Names();
    WriteEffect(file.value, MODE_KEY, mode, BUILTIN);
    ParseFlatIsLast(GetLines(file.value), MODE_KEY);
  }

  lemma SaveKeepsOthers(file: Option<string>, opens: bool, mode: string, key: string, default: string)
    requires key != MODE_KEY && (mode == BUILTIN || mode == SURICATA)
    ensures FieldOf(Save(file, opens, mode), key, default) == FieldOf(file, key, default)
  {
    hide GetLines, FirstLine, LastLine, PlainKey, PlainValue, WriteText, Written;
    Names();
    if file.Some? && opens {
      PlainsAreLines(MODE_KEY, mode);
      LinesOfWrittenText(file.value, MODE_KEY, mode);
      OtherKeysKeepTheirValues(GetLines(file.value), MODE_KEY, mode, key, default);
    }
  }

  lemma PlainsAreLines(key: string, value: string)
    requires PlainKey(key) && PlainValue(value)
    ensures IsLine(key) && IsLine(value)
  {
  }

  /** No sequence of switches changes any other setting of the file, whatever the file looks like. */
  lemma {:induction false} RunKeepsOtherSettings(s: State, calls: seq<Call>, key: string, default: string)
    requires key != MODE_KEY
    ensures FieldOf(Run(s, calls).file, key, default) == FieldOf(s.file, key, default)
    ensures Run(s, calls).evePath == s.evePath
  {
    hide Save, FieldOf, SettingsOf, Swap;
    if calls != [] {
      var n := |calls| - 1;
      RunKeepsOtherSettings(s, calls[..n], key, default);
      SwapKeepsOtherSettings(Run(s, calls[..n]), calls[n].newMode, calls[n].env, key, default);
    }
  }

  lemma SwapKeepsOtherSettings(s: State, newMode: string, env: Env, key: string, default: string)
    requires key != MODE_KEY
    ensures FieldOf(Swap(s, newMode, env).0.file, key, default) == FieldOf(s.file, key, default)
    ensures Swap(s, newMode, env).0.evePath == s.evePath
  {
    hide Save, FieldOf, SettingsOf;
    if newMode == BUILTIN || newMode == SURICATA {
      var saved := Save(s.file, true, newMode);
      SaveKeepsOthers(s.file, true, newMode, key, default);
      SaveKeepsOthers(saved, env.restores, BUILTIN, key, default);
      SaveKeepsOthers(saved, env.restores, SURICATA, key, default);
    }
  }

  ghost predicate SameElsewhere(m1: map<string, string>, m2: map<string, string>) {
    forall k :: k != MODE_KEY ==> (k in m1 <==> k in m2) && (k in m1 && k in m2 ==> m1[k] == m2[k])
  }

  lemma SaveKeepsSettings(file: Option<string>, opens: bool, mode: string)
    requires mode == BUILTIN || mode == SURICATA
    ensures SameElsewhere(SettingsOf(file), SettingsOf(Save(file, opens, mode)))
  {
    hide GetLines, FirstLine, LastLine, PlainKey, PlainValue, WriteText, Written, ParseFlat;
    Names();
    if file.Some? && opens {
      PlainsAreLines(MODE_KEY, mode);
      LinesOfWrittenText(file.value, MODE_KEY, mode);
      forall k | k != MODE_KEY
        ensures k in SettingsOf(file) <==> k in SettingsOf(Save(file, opens, mode))
        ensures k in SettingsOf(file) ==> SettingsOf(file)[k] == SettingsOf(Save(file, opens, mode))[k]
      {
        ParseFlatIsLast(GetLines(file.value), k);
        ParseFlatIsLast(Written(GetLines(file.value), MODE_KEY, mode), k);
        OtherKeysKeepTheirValues(GetLines(file.value), MODE_KEY, mode, k, "");
      }
    }
  }

  lemma RulesIgnoreTheMode(m1: map<string, string>, m2: map<string, string>)
    requires SameElsewhere(m1, m2)
    ensures FromYaml(m1) == FromYaml(m2)
  {
    hide FromChars, SameElsewhere;
    SameNumber(m1, m2, "window_seconds", 60);
    SameNumber(m1, m2, "threshold", 10);
    SameNumber(m1, m2, "cooldown_seconds", 120);
    SameNumber(m1, m2, "scan_window_seconds", 30);
    SameNumber(m1, m2, "scan_threshold", 15);
    SameNumber(m1, m2, "scan_cooldown_seconds", 60);
    SameNumber(m1, m2, "priv_history_hours", 24);
    SameNumber(m1, m2, "priv_cooldown_seconds", 300);
    SameNumber(m1, m2, "multi_window_seconds", 300);
    SameNumber(m1, m2, "multi_min_services", 2);
    SameNumber(m1, m2, "multi_cooldown_seconds", 180);
    hide ToInt;
  }

  lemma SameNumber(m1: map<string, string>, m2: map<string, string>, key: string, default: int)
    requires SameElsewhere(m1, m2) && key != MODE_KEY
    ensures ToInt(m1, key, default) == ToInt(m2, key, default)
  {
    hide FromChars;
  }

  lemma SwapKeepsRules(s: State, newMode: string, env: Env)
    requires s.rules == FromYaml(SettingsOf(s.file))
    ensures var after := Swap(s, newMode, env).0;
            after.rules == s.rules && FromYaml(SettingsOf(after.file)) == s.rules
  {
    hide Save, SettingsOf, FromYaml, SameElsewhere;
    if newMode == BUILTIN || newMode == SURICATA {
      var saved := Save(s.file, true, newMode);
      var other := if newMode == SURICATA then BUILTIN else SURICATA;
      SaveKeepsSettings(s.file, true, newMode);
      RulesIgnoreTheMode(SettingsOf(s.file), SettingsOf(saved));
      SaveKeepsSettings(saved, env.restores, other);
      RulesIgnoreTheMode(SettingsOf(saved), SettingsOf(Save(saved, env.restores, other)));
    }
  }

  /**
   The rules the built-in engine is configured with never change while the agent runs, although
   every switch to it reads them again from the rewritten file.
   */
  lemma {:induction false} RunKeepsRules(file: Option<string>, watch: string, env: Env, calls: seq<Call>)
    requires Boot(file, watch, env).Some?
    ensures var after := Run(Boot(file, watch, env).value, calls);
            after.rules == FromYaml(SettingsOf(file)) && FromYaml(SettingsOf(after.file)) == after.rules
  {
    hide Save, SettingsOf, FromYaml, SameElsewhere, FieldOf, Swap;
    if calls == [] {
      SaveKeepsSettings(file, env.persists, BUILTIN);
      RulesIgnoreTheMode(SettingsOf(file), SettingsOf(Save(file, env.persists, BUILTIN)));
    } else {
      var n := |calls| - 1;
      RunKeepsRules(file, watch, env, calls[..n]);
      SwapKeepsRules(Run(Boot(file, watch, env).value, calls[..n]), calls[n].newMode, calls[n].env);
    }
  }

  // ---- What the reply means -----------------------------------------------------------------------------

  /**
   A successful switch: the mode, the only live engine, and what both readers find in the file,
   which is the new mode unless the line they take is one the writer does not recognise.
   */
  lemma DoneMeansSwitched(s: State, newMode: string, env: Env)
    requires Swap(s, newMode, env).1 == Done
    ensures var after := Swap(s, newMode, env).0;
            && (newMode == BUILTIN || newMode == SURICATA) && newMode != s.mode
            && after.mode == newMode
            && after.adapter == (if newMode == SURICATA then Some(s.evePath) else None)
            && after.tailer == (if newMode == SURICATA then None else Some(s.watchFile))
            && ModeOn(after.file) == (if Stuck(s.file) then ModeOn(s.file) else newMode)
            && (!RulesStuck(s.file) ==> SettingsOf(after.file) == SettingsOf(s.file)[MODE_KEY := newMode])
            && (RulesStuck(s.file) ==> SettingsOf(after.file) == SettingsOf(s.file))
            && (newMode == BUILTIN ==> after.rules == FromYaml(SettingsOf(after.file)))
  {
    hide Save, ModeOn, SettingsOf, Stuck, RulesStuck, FromYaml;
    SaveIsRead(s.file, true, newMode);
    SaveIsParsed(s.file, newMode);
  }

  /** In a file without a carriage return before a colon no line is in the way. */
  lemma CleanIsNotStuck(file: Option<string>)
    requires file.Some? ==> CleanText(file.value)
    ensures !Stuck(file) && !RulesStuck(file)
  {
    hide CleanText, GetLines, FirstLine, LastLine, Stale, Found, PlainKey, PlainValue;
    Names();
    if file.Some? {
      CleanFirstIsNotStale(file.value, MODE_KEY);
    }
  }

  /** The line in the way is the first line of the mode, with a carriage return behind its key. */
  lemma StuckIff(file: Option<string>)
    ensures Stuck(file) <==>
              file.Some? &&
              var first := FirstLine(GetLines(file.value), MODE_KEY);
              first.Some? && ReturnBehindKey(first.value)
  {
    hide GetLines, FirstLine, Stale, ReturnBehindKey, PlainKey, PlainValue, Reads;
    Names();
    if file.Some? && FirstLine(GetLines(file.value), MODE_KEY).Some? {
      GetLinesAreLines(file.value);
      ReadingsAreLines(GetLines(file.value), MODE_KEY);
      StaleIff(FirstLine(GetLines(file.value), MODE_KEY).value, MODE_KEY);
    }
  }

  /**
   For any file at all: the saved mode is read back exactly when the first line read as the mode
   is one the writer replaces, or named the new mode already.
   */
  lemma DoneIsReadBackIff(s: State, newMode: string, env: Env)
    requires Swap(s, newMode, env).1 == Done
    ensures ModeOn(Swap(s, newMode, env).0.file) == newMode <==> !Stuck(s.file) || ModeOn(s.file) == newMode
  {
    hide Swap, ModeOn, Stuck, RulesStuck, SettingsOf, FromYaml;
    DoneMeansSwitched(s, newMode, env);
  }

  /** The engine a start chooses from the mode on file. */
  function Started(mode: string, eveExists: bool): string {
    if mode == SURICATA && eveExists then SURICATA else BUILTIN
  }

  /**
   After a successful switch a restart that succeeds runs the engine that is live now, exactly
   when the mode it finds on file selects it.
   */
  lemma DoneSurvivesRestart(s: State, newMode: string, env: Env, watch: string, next: Env)
    requires Swap(s, newMode, env).1 == Done
    ensures var after := Swap(s, newMode, env).0;
            var booted := Boot(after.file, watch, next);
            && (booted.Some? <==> next.starts)
            && (booted.Some? ==>
                 ((booted.value.adapter.Some? == after.adapter.Some?
                   && booted.value.tailer.Some? == after.tailer.Some?)
                  <==> Started(if Stuck(s.file) then ModeOn(s.file) else newMode, next.eveExists) == newMode))
  {
    hide Swap, FieldOf, SettingsOf, Stuck, RulesStuck, FromYaml, Save;
    DoneMeansSwitched(s, newMode, env);
  }

  predicate Refused(reply: Reply) {
    reply == InvalidMode || reply == AlreadyThere
  }

  /**
   A refused request changes nothing.  After any other, an engine is live exactly when the reply
   is `Done`, and a failure leaves the mode as it was.
   */
  lemma FailureLeavesNoEngine(s: State, newMode: string, env: Env)
    ensures var (after, reply) := Swap(s, newMode, env);
            && (Refused(reply) ==> after == s)
            && (!Refused(reply) ==> (after.adapter.Some? || after.tailer.Some? <==> reply == Done))
            && (reply != Done ==> after.mode == s.mode)
  {
    hide Save, SettingsOf, FromYaml;
  }

  /**
   After a failure a request is answered "already" exactly when it names the old mode, and then it
   starts nothing; from the fallback mode, which no request can name, neither engine is refused.
   */
  lemma FailureLocksTheOldMode(s: State, newMode: string, env: Env, again: string, next: Env)
    requires !Refused(Swap(s, newMode, env).1) && Swap(s, newMode, env).1 != Done
    requires again == BUILTIN || again == SURICATA
    ensures var after := Swap(s, newMode, env).0;
            && (Swap(after, again, next).1 == AlreadyThere <==> again == s.mode)
            && (again == s.mode ==>
                 Swap(after, again, next).0 == after && after.adapter.None? && after.tailer.None?)
  {
    hide Save, SettingsOf, FromYaml;
    FailureLeavesNoEngine(s, newMode, env);
  }

  // ---- Which file the tailer follows ---------------------------------------------------------------------

  /** The call gets as far as pointing the agent at the adapter's file. */
  predicate Reaches(s: State, c: Call) {
    c.newMode == SURICATA && s.mode != SURICATA && s.file.Some? && c.env.persists && c.env.eveExists
  }

  predicate EverReaches(s: State, calls: seq<Call>) {
    calls != [] &&
      var n := |calls| - 1;
      EverReaches(s, calls[..n]) || Reaches(Run(s, calls[..n]), calls[n])
  }

  lemma SwapSetsWatchFile(s: State, c: Call)
    ensures var after := Swap(s, c.newMode, c.env).0;
            after.watchFile == (if Reaches(s, c) then s.evePath else s.watchFile) && after.evePath == s.evePath
  {
    hide Save, SettingsOf, FromYaml;
  }

  /** The watched file is that of the start until some call reaches the adapter, and the adapter's ever after. */
  lemma {:induction false} WatchFileOfRun(s: State, calls: seq<Call>)
    ensures Run(s, calls).watchFile == if EverReaches(s, calls) then s.evePath else s.watchFile
    ensures Run(s, calls).evePath == s.evePath
  {
    hide Swap, Reaches;
    if calls != [] {
      var n := |calls| - 1;
      WatchFileOfRun(s, calls[..n]);
      SwapSetsWatchFile(Run(s, calls[..n]), calls[n]);
    }
  }

  /**
   Exactly when a run that ends in a successful switch to built-in follows the log the agent was
   started with: no call on the way reached the adapter, whether or not the adapter then started.
   */
  lemma {:induction false} TailerFollowsLogIff(
    file: Option<string>, watch: string, env: Env, calls: seq<Call>, back: Env)
    requires Boot(file, watch, env).Some?
    requires Swap(Run(Boot(file, watch, env).value, calls), BUILTIN, back).1 == Done
    ensures var s := Boot(file, watch, env).value;
            Swap(Run(s, calls), BUILTIN, back).0.tailer == Some(watch)
            <==> s.evePath == watch || !EverReaches(s, calls)
  {
    hide Save, SettingsOf, FromYaml, FieldOf, EverReaches, Run;
    WatchFileOfRun(Boot(file, watch, env).value, calls);
  }

  /** One way to lose the log: a switch to the adapter and back. */
  lemma TailerStaysOnEve(s: State, there: Env, back: Env)
    requires Swap(s, SURICATA, there).1 == Done
    requires Swap(Swap(s, SURICATA, there).0, BUILTIN, back).1 == Done
    ensures Swap(Swap(s, SURICATA, there).0, BUILTIN, back).0.tailer == Some(s.evePath)
  {
    hide Save, SettingsOf, FromYaml;
  }

  /** Another, without the adapter ever running: from the fallback mode, a failed switch to it. */
  lemma FailedStartLosesTheLog(s: State)
    requires s.mode == FALLBACK && s.file.Some?
    ensures var (failed, reply1) := Swap(s, SURICATA, Env(true, true, false, true));
            var (after, reply2) := Swap(failed, BUILTIN, Env(true, true, true, true));
            && reply1 == StartFailed && failed.adapter.None?
            && reply2 == Done && after.tailer == Some(s.evePath)
  {
    hide WriteText, SettingsOf, FromYaml;
  }

  // ---- When the file disagrees with the mode -----------------------------------------------------------

  /** The engine that a reading of the mode selects. */
  function Chosen(mode: string): string {
    if mode == SURICATA then SURICATA else BUILTIN
  }

  /** A restart would choose the engine of the current mode. */
  predicate FileAgrees(s: State) {
    Chosen(ModeOn(s.file)) == Chosen(s.mode)
  }

  /** The new mode is saved. */
  predicate Saves(s: State, newMode: string, env: Env) {
    (newMode == BUILTIN || newMode == SURICATA) && newMode != s.mode && s.file.Some? && env.persists
  }

  /** The new engine does not start after the new mode was saved. */
  predicate Aborts(s: State, newMode: string, env: Env) {
    Saves(s, newMode, env) && (!env.starts || (newMode == SURICATA && !env.eveExists))
  }

  function Other(mode: string): string {
    if mode == SURICATA then BUILTIN else SURICATA
  }

  /** The mode a switch leaves on file, for any file and in any state. */
  lemma ModeAfterSwap(s: State, newMode: string, env: Env)
    ensures var after := Swap(s, newMode, env).0;
            && ModeOn(after.file) ==
                 (if Stuck(s.file) || !Saves(s, newMode, env) then ModeOn(s.file)
                  else if Aborts(s, newMode, env) && env.restores then Other(newMode)
                  else newMode)
            && Stuck(after.file) == Stuck(s.file)
            && after.mode == if Saves(s, newMode, env) && !Aborts(s, newMode, env) then newMode else s.mode
  {
    hide Save, ModeOn, SettingsOf, Stuck, FromYaml;
    if newMode == BUILTIN || newMode == SURICATA {
      var saved := Save(s.file, true, newMode);
      SaveIsRead(s.file, true, newMode);
      SaveIsRead(saved, env.restores, Other(newMode));
      SaveOrNot(saved, Other(newMode));
    }
  }

  lemma SaveOrNot(file: Option<string>, mode: string)
    ensures Save(file, false, mode) == file
  {
  }

  /**
   The call breaks the agreement of the file with the mode.  If the mode on file is one the writer
   cannot replace, every switch of the engine that succeeds does.  Otherwise the call must abort,
   and either the roll-back is needed but cannot be written, or it was not needed but is: the
   fallback mode runs the built-in engine, yet a failed switch to built-in rolls its file back to
   the other one.
   */
  predicate Breaks(s: State, newMode: string, env: Env) {
    if Stuck(s.file) then
      Saves(s, newMode, env) && !Aborts(s, newMode, env) && newMode != Chosen(s.mode)
    else
      Aborts(s, newMode, env) && (env.restores == (newMode == BUILTIN && s.mode == FALLBACK))
  }

  /** For any file, a switch makes an agreeing file disagree exactly when it breaks the agreement. */
  lemma DisagreesIff(s: State, newMode: string, env: Env)
    requires Agrees(s) && FileAgrees(s)
    ensures !FileAgrees(Swap(s, newMode, env).0) <==> Breaks(s, newMode, env)
  {
    hide Swap, ModeOn, Stuck;
    ModeAfterSwap(s, newMode, env);
  }

  /** For any file, the start disagrees exactly when it falls back and cannot save that. */
  lemma BootDisagreesIff(file: Option<string>, watch: string, env: Env)
    requires Boot(file, watch, env).Some?
    ensures !FileAgrees(Boot(file, watch, env).value) <==>
            ModeOn(file) == SURICATA && !env.eveExists && (!env.persists || Stuck(file))
  {
    hide Save, SettingsOf, FirstLine, GetLines, FromYaml, Stuck;
    SaveIsRead(file, env.persists, BUILTIN);
  }

  /** Some call of the run breaks the agreement. */
  predicate EverBreaks(s: State, calls: seq<Call>) {
    exists n :: 0 <= n < |calls| && Breaks(Run(s, calls[..n]), calls[n].newMode, calls[n].env)
  }

  lemma {:induction false} RunFromAgrees(s: State, calls: seq<Call>)
    requires Agrees(s)
    ensures Agrees(Run(s, calls))
  {
    hide Agrees, Swap;
    if calls != [] {
      var n := |calls| - 1;
      RunFromAgrees(s, calls[..n]);
      SwapKeepsAgrees(Run(s, calls[..n]), calls[n].newMode, calls[n].env);
    }
  }

  lemma {:induction false} UnbrokenRunAgrees(s: State, calls: seq<Call>)
    requires Agrees(s) && FileAgrees(s) && !EverBreaks(s, calls)
    ensures FileAgrees(Run(s, calls))
  {
    hide Agrees, Swap, FileAgrees, Breaks;
    if calls != [] {
      var n := |calls| - 1;
      assert !EverBreaks(s, calls[..n]) by {
        assert forall k :: 0 <= k < n ==> calls[..n][..k] == calls[..k];
      }
      UnbrokenRunAgrees(s, calls[..n]);
      RunFromAgrees(s, calls[..n]);
      DisagreesIff(Run(s, calls[..n]), calls[n].newMode, calls[n].env);
    }
  }

  /** For any file, a run keeps the agreement after every call exactly when no call breaks it. */
  lemma {:induction false} RunKeepsFileIff(s: State, calls: seq<Call>)
    requires Agrees(s) && FileAgrees(s)
    ensures (forall n :: 0 <= n <= |calls| ==> FileAgrees(Run(s, calls[..n]))) <==> !EverBreaks(s, calls)
  {
    hide Agrees, Swap, FileAgrees, Breaks;
    if EverBreaks(s, calls) {
      var n :| 0 <= n < |calls| && Breaks(Run(s, calls[..n]), calls[n].newMode, calls[n].env);
      assert calls[..n + 1][..n] == calls[..n];
      RunFromAgrees(s, calls[..n]);
      if FileAgrees(Run(s, calls[..n])) {
        DisagreesIff(Run(s, calls[..n]), calls[n].newMode, calls[n].env);
        assert !FileAgrees(Run(s, calls[..n + 1]));
      }
    } else {
      forall n | 0 <= n <= |calls|
        ensures FileAgrees(Run(s, calls[..n]))
      {
        assert !EverBreaks(s, calls[..n]) by {
          assert forall k :: 0 <= k < n ==> calls[..n][..k] == calls[..k];
        }
        UnbrokenRunAgrees(s, calls[..n]);
      }
    }
  }

  lemma SwapKeepsAgrees(s: State, newMode: string, env: Env)
    requires Agrees(s)
    ensures Agrees(Swap(s, newMode, env).0)
  {
    hide Save, SettingsOf, FromYaml;
  }

  // ---- In the words of the file and of the requests -----------------------------------------------------

  /** The value on the first line of the key, or the default. */
  function FirstValue(file: Option<string>, key: string, default: string): string {
    if file.None? || FirstLine(GetLines(file.value), key).None? then default
    else Field(FirstLine(GetLines(file.value), key).value).value.1
  }

  /** Which file each engine follows after a start, which mode is reported, and what is saved. */
  lemma StartFollows(file: Option<string>, watch: string, env: Env)
    ensures var wanted := FirstValue(file, "ids_mode", "builtin");
            var eve := FirstValue(file, "eve_json_path", "/var/log/suricata/eve.json");
            var booted := Boot(file, watch, env);
            && (booted.Some? <==> env.starts)
            && (booted.Some? ==>
                 && booted.value.watchFile == watch && booted.value.evePath == eve
                 && (wanted == "suricata" && env.eveExists ==>
                      booted.value.adapter == Some(eve) && booted.value.tailer.None?
                      && booted.value.mode == "suricata")
                 && (wanted != "suricata" ==>
                      booted.value.adapter.None? && booted.value.tailer == Some(watch)
                      && booted.value.mode == "builtin")
                 && (wanted == "suricata" && !env.eveExists ==>
                      booted.value.adapter.None? && booted.value.tailer == Some(watch)
                      && booted.value.mode == "builtin (fallback \U{2014} eve.json missing)")
                 && booted.value.file ==
                      if wanted == "suricata" && !env.eveExists && env.persists && file.Some?
                      then Some(WriteText(file.value, "ids_mode", "builtin")) else file)
  {
    hide GetLines, FirstLine, WriteText, SettingsOf, FromYaml;
  }

  /** Only the two engine names are requests, and only the current mode is answered "already". */
  lemma RequestsAre(s: State, newMode: string, env: Env)
    ensures var reply := Swap(s, newMode, env).1;
            && (reply == InvalidMode <==> newMode != "builtin" && newMode != "suricata")
            && (reply == AlreadyThere <==> (newMode == "builtin" || newMode == "suricata") && newMode == s.mode)
            && (reply == WriteFailed <==> !Refused(reply) && (s.file.None? || !env.persists))
            && (reply == EveMissing <==>
                  newMode == "suricata" && newMode != s.mode && s.file.Some? && env.persists && !env.eveExists)
  {
    hide Save, SettingsOf, FromYaml;
  }

  /** A successful switch leaves a line `ids_mode: ` with the new mode, for any file. */
  lemma DoneWritesItsLine(s: State, newMode: string, env: Env)
    requires Swap(s, newMode, env).1 == Done
    ensures var after := Swap(s, newMode, env).0;
            after.file.Some? && "ids_mode: " + newMode in GetLines(after.file.value)
  {
    Names();
    PlainsAreLines(MODE_KEY, newMode);
    assert MODE_KEY + ": " == "ids_mode: ";
    hide GetLines, WriteText, SettingsOf, FromYaml, PlainKey, PlainValue, WriterKey;
    WriteKeepsLines(s.file.value, MODE_KEY, newMode);
  }
}
