/** The controller's before-action hooks: `beforeActionList` and the filter
    that `beforeAction` applies to each entry (`only` first, then
    `except`, a string filter split on commas). A hook's own effect is
    abstracted to the `Flow` it ends with. */
module ActionHooks {
  import opened Wrappers
  import opened PhpStrings
  import opened ResponseEnvelope

  /** A filter as configured: a comma-separated string or a list of action names. */
  datatype ActionList = Csv(text: string) | Names(names: seq<string>)

  /** The `only` and `except` options of a hook; `None` is an option not set. */
  datatype HookOptions = HookOptions(only: Option<ActionList>, except: Option<ActionList>)

  /** An entry of `beforeActionList`. Under a numeric key the value is the
      method name and there are no options; under a string key the key is
      the method name and the value its options. */
  datatype HookEntry = Positional(name: string) | Keyed(name: string, options: HookOptions)

  const NoOptions := HookOptions(None, None)

  /** The names a filter lists; a string filter is `explode(',', text)`. */
  function ActionNames(l: ActionList): (names: seq<string>)
    ensures l.Csv? ==> |names| >= 1 && Implode(names) == l.text
    ensures l.Csv? ==> forall k :: 0 <= k < |names| ==> ',' !in names[k]
    ensures l.Names? ==> names == l.names
  {
    match l
    case Csv(text) =>
      ImplodeExplode(text);
      Explode(text)
    case Names(ns) => ns
  }

  function OptionsOf(e: HookEntry): HookOptions {
    match e
    case Positional(_) => NoOptions
    case Keyed(_, options) => options
  }

  /** `beforeAction`'s decision: with `only`, run iff the action is listed;
      else with `except`, run iff it is not listed; else always run. */
  predicate Runs(options: HookOptions, action: string) {
    if options.only.Some? then action in ActionNames(options.only.value)
    else if options.except.Some? then action !in ActionNames(options.except.value)
    else true
  }

  /** `only` takes precedence: an `except` beside it is ignored. */
  lemma OnlyTakesPrecedence(only: ActionList, except: ActionList, action: string)
    ensures Runs(HookOptions(Some(only), Some(except)), action) == Runs(HookOptions(Some(only), None), action)
    ensures Runs(HookOptions(Some(only), None), action) <==> action in ActionNames(only)
  {
  }

  /** A hook without options, and every positional entry, always runs. */
  lemma UnfilteredHookAlwaysRuns(name: string, action: string)
    ensures Runs(OptionsOf(Positional(name)), action)
    ensures Runs(OptionsOf(Keyed(name, NoOptions)), action)
  {
  }

  /** A comma-separated filter behaves as the list of its comma-free pieces. */
  lemma CsvFilterEqualsList(names: seq<string>, action: string)
    requires |names| >= 1
    requires forall k :: 0 <= k < |names| ==> ',' !in names[k]
    ensures Runs(HookOptions(Some(Csv(Implode(names))), None), action)
         == Runs(HookOptions(Some(Names(names)), None), action)
    ensures Runs(HookOptions(None, Some(Csv(Implode(names)))), action)
         == Runs(HookOptions(None, Some(Names(names))), action)
  {
    ExplodeImplode(names);
  }

  /** The methods whose filters admit the action, in configured order. */
  function Selected(list: seq<HookEntry>, action: string): (methods: seq<string>)
    ensures |methods| <= |list|
  {
    if list == [] then []
    else (if Runs(OptionsOf(list[0]), action) then [list[0].name] else []) + Selected(list[1..], action)
  }

  /** A method is selected iff some entry names it and its filter admits the action. */
  lemma {:induction false} SelectedMembers(list: seq<HookEntry>, action: string, m: string)
    ensures m in Selected(list, action) <==>
              exists k :: 0 <= k < |list| && list[k].name == m && Runs(OptionsOf(list[k]), action)
  {
    if list != [] {
      SelectedMembers(list[1..], action, m);
      if exists k :: 0 <= k < |list[1..]| && list[1..][k].name == m && Runs(OptionsOf(list[1..][k]), action) {
        var k :| 0 <= k < |list[1..]| && list[1..][k].name == m && Runs(OptionsOf(list[1..][k]), action);
        assert list[k + 1] == list[1..][k];
      }
      if exists k :: 0 <= k < |list| && list[k].name == m && Runs(OptionsOf(list[k]), action) {
        var k :| 0 <= k < |list| && list[k].name == m && Runs(OptionsOf(list[k]), action);
        if k > 0 {
          assert list[1..][k - 1] == list[k];
        }
      }
    }
  }

  /** The constructor's loop over `beforeActionList`: the flow it ends with
      and the methods it invoked, in order. The hooks invoked are a prefix
      of the selected ones; all but the last continued, and the last one
      decides the flow. So it stops at the first hook that halts, and runs
      every selected hook when none does. */
  function Dispatch(list: seq<HookEntry>, action: string, hooks: string -> Flow): (r: (Flow, seq<string>))
    ensures r.1 <= Selected(list, action)
    ensures r.0 == Continue ==> r.1 == Selected(list, action)
    ensures forall k :: 0 <= k < |r.1| - 1 ==> hooks(r.1[k]) == Continue
    ensures r.1 != [] ==> hooks(r.1[|r.1| - 1]) == r.0
    ensures r.0 != Continue ==> r.1 != []
  {
    if list == [] then (Continue, [])
    else
      var rest := Dispatch(list[1..], action, hooks);
      if !Runs(OptionsOf(list[0]), action) then rest
      else
        var m := list[0].name;
        if hooks(m) != Continue then (hooks(m), [m])
        else (rest.0, [m] + rest.1)
  }

  /** One step of the dispatch, on the entries from index `i` on. */
  lemma DispatchFrom(list: seq<HookEntry>, i: nat, action: string, hooks: string -> Flow)
    requires i < |list|
    ensures var rest := Dispatch(list[i + 1..], action, hooks);
            var m := list[i].name;
            Dispatch(list[i..], action, hooks)
              == if !Runs(OptionsOf(list[i]), action) then rest
                 else if hooks(m) != Continue then (hooks(m), [m])
                 else (rest.0, [m] + rest.1)
  {
    assert list[i..][0] == list[i];
    assert list[i..][1..] == list[i + 1..];
  }

  /** The dispatch from index `i` on, after the methods `invoked` already
      ran: how it continues from index `i + 1`. */
  lemma DispatchAdvance(list: seq<HookEntry>, i: nat, invoked: seq<string>, action: string,
                        hooks: string -> Flow)
    requires i < |list|
    ensures var d := Dispatch(list[i..], action, hooks);
            var rest := Dispatch(list[i + 1..], action, hooks);
            var m := list[i].name;
            && (!Runs(OptionsOf(list[i]), action) ==> (d.0, invoked + d.1) == (rest.0, invoked + rest.1))
            && (Runs(OptionsOf(list[i]), action) && hooks(m) == Continue ==>
                  (d.0, invoked + d.1) == (rest.0, (invoked + [m]) + rest.1))
            && (Runs(OptionsOf(list[i]), action) && hooks(m) != Continue ==>
                  (d.0, invoked + d.1) == (hooks(m), invoked + [m]))
  {
    DispatchFrom(list, i, action, hooks);
    var d := Dispatch(list[i..], action, hooks);
    var rest := Dispatch(list[i + 1..], action, hooks);
    var m := list[i].name;
    if !Runs(OptionsOf(list[i]), action) {
      assert d == rest;
    } else if hooks(m) == Continue {
      assert d == (rest.0, [m] + rest.1);
      assert invoked + ([m] + rest.1) == (invoked + [m]) + rest.1;
    } else {
      assert d == (hooks(m), [m]);
    }
  }

  /** When every selected hook continues, the dispatch continues. */
  lemma AllHooksContinue(list: seq<HookEntry>, action: string, hooks: string -> Flow)
    requires forall m :: m in Selected(list, action) ==> hooks(m) == Continue
    ensures Dispatch(list, action, hooks) == (Continue, Selected(list, action))
  {
    var r := Dispatch(list, action, hooks);
    if r.1 != [] {
      assert r.1[|r.1| - 1] == Selected(list, action)[|r.1| - 1];
    }
  }

  /** The examples of the hook filter: `only = ["create"]` runs for
      "create" and not for "update"; `except = ["list"]` skips "list" only. */
  lemma FilterExamples(action: string)
    ensures Runs(HookOptions(Some(Names(["create"])), None), "create")
    ensures !Runs(HookOptions(Some(Names(["create"])), None), "update")
    ensures Runs(HookOptions(None, Some(Names(["list"]))), action) <==> action != "list"
  {
  }
}
