/**
 * fillForm: walks the install form's fields in order and settles each
 * value through getLazyValue and, unless the installer runs lazily, the
 * operator. Seven field names have a rule of their own; after
 * dbTablesAction every later field keeps the value the form already had.
 */
module FormFill {
  import opened Wrappers
  import opened Strings
  import opened Values
  import opened Cascade
  import opened HttpHosts
  import opened Timezones
  import opened Console

  /** A field as getPhpValues() lists it: its name and its current value. */
  datatype FormField = FormField(name: string, value: Value)

  /**
   * What fillForm reads from a page that has the install form: the fields,
   * the options of the timezone select, and the value attributes of the
   * remove_items checkboxes.
   */
  datatype Form = Form(fields: seq<FormField>, timezones: seq<TzOption>, checkboxes: seq<string>)

  datatype FillError = NoForm | NoAnswer

  /** The loop's state: the form's values, $pass, $skipAll, and the answers not yet used. */
  datatype FillState = FillState(values: map<string, Value>, pass: Value, skipAll: bool, rest: seq<Answer>)

  /** The form's values before the loop: name => value. */
  function InitialValues(fields: seq<FormField>): (r: map<string, Value>)
    ensures forall i :: 0 <= i < |fields| ==> fields[i].name in r
    decreases |fields|
  {
    if fields == [] then map[]
    else
      var last := fields[|fields| - 1];
      var r := InitialValues(fields[..|fields| - 1])[last.name := last.value];
      assert forall i :: 0 <= i < |fields| - 1 ==> fields[..|fields| - 1][i] == fields[i];
      r
  }

  /** The names of the form's fields. */
  function FieldNames(fields: seq<FormField>): set<string> {
    set i | 0 <= i < |fields| :: fields[i].name
  }

  /** The form's values have a key for every field and for nothing else. */
  lemma {:induction false} InitialValuesKeys(fields: seq<FormField>)
    ensures InitialValues(fields).Keys == FieldNames(fields)
    decreases |fields|
  {
    if fields != [] {
      var init := fields[..|fields| - 1];
      InitialValuesKeys(init);
      assert forall i :: 0 <= i < |init| ==> init[i] == fields[i];
      assert FieldNames(fields) == FieldNames(init) + {fields[|fields| - 1].name};
    }
  }

  /** Every field of the form has a value. */
  predicate HasFields(m: map<string, Value>, fields: seq<FormField>) {
    forall i :: 0 <= i < |fields| ==> fields[i].name in m
  }

  predicate DistinctNames(fields: seq<FormField>) {
    forall i, j :: 0 <= i < j < |fields| ==> fields[i].name != fields[j].name
  }

  lemma {:induction false} InitialValueOf(fields: seq<FormField>, i: nat)
    requires DistinctNames(fields) && i < |fields|
    ensures InitialValues(fields)[fields[i].name] == fields[i].value
    decreases |fields|
  {
    if i < |fields| - 1 {
      var init := fields[..|fields| - 1];
      assert init[i] == fields[i];
      InitialValueOf(init, i);
    }
  }

  /** $default: the CLI option, else (lazily) the table, else $defaults[$name], else the form's value. */
  function FieldDefault(c: Config, defaults: map<string, Value>, f: FormField): Value {
    LazyValue(c, f.name, if f.name in defaults then defaults[f.name] else f.value)
  }

  // ----- timezone -----

  /** The key of the option whose PHP name matches the default, compared lower-cased. */
  function TimezoneKey(tzs: seq<TzOption>, d: Value): Option<string> {
    if Truthy(d) then KeyOfName(Names(tzs), AsString(d)) else None
  }

  /**
   * Lazily, a default that names one of the options selects it without a
   * prompt. Otherwise the operator's answer (or the default) is looked up
   * among the labels; a text that is no label selects option '0' (UTC).
   */
  function TimezoneRule(c: Config, tzs: seq<TzOption>, d: Value, answers: seq<Answer>): (r: Option<(Value, seq<Answer>)>)
    ensures c.lazy && TimezoneKey(tzs, d).Some? ==> r == Some((Str(TimezoneKey(tzs, d).value), answers))
    ensures !(c.lazy && TimezoneKey(tzs, d).Some?) ==> (r.None? <==> answers == [])
    ensures !(c.lazy && TimezoneKey(tzs, d).Some?) && answers != [] ==>
              var k := KeyOfLabel(Labels(tzs), AsString(Reply(answers[0], d)));
              r == Some((Str(if k.Some? then k.value else "0"), answers[1..]))
  {
    var key := TimezoneKey(tzs, d);
    if c.lazy && key.Some? then Some((Str(key.value), answers))
    else
      match Ask(answers, d)
      case None => None
      case Some((chosen, rest)) =>
        var v := match KeyOfLabel(Labels(tzs), AsString(chosen)) case Some(k) => k case None => "0";
        Some((Str(v), rest))
  }

  lemma {:induction false} LabelsNamesSameKeys(tzs: seq<TzOption>)
    ensures Keys(Labels(tzs)) == Keys(Names(tzs))
    decreases |tzs|
  {
    if tzs != [] {
      var init := tzs[..|tzs| - 1];
      var o := tzs[|tzs| - 1];
      LabelsNamesSameKeys(init);
      PutIsUpdate(Labels(init), o.key, ToLower(TzLabel(o.text)), o.key);
      PutIsUpdate(Names(init), o.key, o.text, o.key);
    }
  }

  /** The timezone field is always set to the key of one of the select's options, or to '0'. */
  lemma TimezoneValueIsOption(c: Config, tzs: seq<TzOption>, d: Value, answers: seq<Answer>)
    requires TimezoneRule(c, tzs, d, answers).Some?
    ensures var v := TimezoneRule(c, tzs, d, answers).value.0;
            v == Str("0") || exists i :: 0 <= i < |Labels(tzs)| && v == Str(Labels(tzs)[i].0)
  {
    var v := TimezoneRule(c, tzs, d, answers).value.0;
    var key := TimezoneKey(tzs, d);
    if c.lazy && key.Some? {
      var names := Names(tzs);
      var i :| 0 <= i < |names| && names[i].0 == key.value;
      LabelsNamesSameKeys(tzs);
      assert Keys(names)[i] == key.value;
      assert |Labels(tzs)| == |Keys(Labels(tzs))| == |Keys(names)| == |names|;
      assert Labels(tzs)[i].0 == Keys(Labels(tzs))[i];
      assert v == Str(Labels(tzs)[i].0);
    } else {
      var (chosen, rest) := Ask(answers, d).value;
      var k := KeyOfLabel(Labels(tzs), AsString(chosen));
      if k.Some? {
        var i :| 0 <= i < |Labels(tzs)| && Labels(tzs)[i] == (k.value, AsString(chosen));
        assert v == Str(Labels(tzs)[i].0);
      }
    }
  }

  // ----- httpHosts -----

  /** The argument cleanHttpHostsArray receives. */
  function HostsInputOf(d: Value): HostsInput {
    match d
    case Strs(items) => FromList(items)
    case Str(s) => FromString(s)
    case _ => FromString(AsString(d))
  }

  /** preg_split('/[\n,]+/') of a string, or the value cast to an array. */
  function HostPieces(v: Value): seq<string> {
    match v
    case Str(s) => Split(s, {'\n', ','})
    case Strs(items) => items
    case Null => []
    case _ => [AsString(v)]
  }

  /** The value handed to the form: the pieces trimmed, the falsy ones dropped, one per line. */
  function HostLines(v: Value): string {
    Join(TrimAndFilter(HostPieces(v)), "\n")
  }

  /** The prompt's default: a non-empty default is cleaned and written one host per line. */
  function HostsPromptDefault(d: Value): Value {
    if Truthy(d) then Str(Join(Cleaned(HostsInputOf(d)), "\n")) else d
  }

  function HostsRule(c: Config, d: Value, answers: seq<Answer>): (r: Option<(Value, seq<Answer>)>)
    ensures c.lazy ==> r == Some((Str(HostLines(HostsPromptDefault(d))), answers))
    ensures !c.lazy ==> (r.None? <==> answers == [])
    ensures !c.lazy && answers != [] ==> r == Some((Str(HostLines(Reply(answers[0], HostsPromptDefault(d)))), answers[1..]))
  {
    var pd := HostsPromptDefault(d);
    if c.lazy then Some((Str(HostLines(pd)), answers))
    else
      match Ask(answers, pd)
      case None => None
      case Some((v, rest)) => Some((Str(HostLines(v)), rest))
  }

  /** Pieces that are trimmed, truthy and free of separators survive a join and a split unchanged. */
  lemma CleanPiecesSurvive(parts: seq<string>)
    requires forall i :: 0 <= i < |parts| ==> IsTrimmed(parts[i]) && TruthyString(parts[i]) && NoneOf(parts[i], {'\n', ','})
    ensures HostLines(Str(Join(parts, "\n"))) == Join(parts, "\n")
  {
    if parts == [] {
      assert Split("", {'\n', ','}) == [""];
    } else {
      SplitJoin(parts, '\n', {'\n', ','});
      TrimAndFilterOfClean(parts);
    }
  }

  /** Writing the lines back into the field and reading them again gives the same lines. */
  lemma HostLinesStable(s: string)
    ensures HostLines(Str(HostLines(Str(s)))) == HostLines(Str(s))
  {
    var raw := Split(s, {'\n', ','});
    var parts := TrimAndFilter(raw);
    forall i | 0 <= i < |parts| ensures NoneOf(parts[i], {'\n', ','}) {
      TrimAndFilterFrom(raw, parts[i]);
      var j :| 0 <= j < |raw| && parts[i] == Trim(raw[j]);
      TrimKeepsNoneOf(raw[j], {'\n', ','});
    }
    CleanPiecesSurvive(parts);
  }

  /** The entries cleaned out of a string are pieces that survive being joined and split again. */
  lemma CleanedStringPieces(s: string)
    ensures var parts := Cleaned(FromString(s));
            forall i :: 0 <= i < |parts| ==> IsTrimmed(parts[i]) && TruthyString(parts[i]) && NoneOf(parts[i], {'\n', ','})
  {
    var parts := Cleaned(FromString(s));
    CleanedAreEntries(FromString(s));
    StringEntriesHaveNoDelims(s);
    forall i | 0 <= i < |parts|
      ensures IsTrimmed(parts[i]) && TruthyString(parts[i]) && NoneOf(parts[i], {'\n', ','})
    {
      assert parts[i] in parts;
    }
  }

  /** Lazily, a non-empty host string ends up exactly as cleanHttpHostsArray leaves it, one per line. */
  lemma LazyHostsAreCleaned(c: Config, s: string, answers: seq<Answer>)
    requires c.lazy && TruthyString(s)
    ensures HostsRule(c, Str(s), answers) == Some((Str(Join(Cleaned(FromString(s)), "\n")), answers))
  {
    var joined := Join(Cleaned(FromString(s)), "\n");
    assert HostLines(Str(joined)) == joined by {
      CleanedStringPieces(s);
      CleanPiecesSurvive(Cleaned(FromString(s)));
    }
    assert HostsPromptDefault(Str(s)) == Str(joined);
  }

  // ----- admin_name -----

  /** The --url option (or the table, lazily) names the admin page; the field's default comes next. */
  function AdminNameRule(c: Config, d: Value, answers: seq<Answer>): (r: Option<(Value, seq<Answer>)>)
    ensures var url := LazyValue(c, "url", Null);
            c.lazy ==> r == Some((if Truthy(url) then url else d, answers))
    ensures !c.lazy ==> (r.None? <==> answers == [])
    ensures var url := LazyValue(c, "url", Null);
            !c.lazy && answers != [] ==> r == Some((Reply(answers[0], if Truthy(url) then url else d), answers[1..]))
  {
    var url := LazyValue(c, "url", Null);
    var pd := if Truthy(url) then url else d;
    if c.lazy then Some((pd, answers)) else Ask(answers, pd)
  }

  // ----- userpass and userpass_confirm -----

  /** The do-while of the interactive password prompt: asked again until strlen() is at least 6, that is, 6 bytes of UTF-8. */
  function PasswordPrompt(answers: seq<Answer>, pd: Value): (r: Option<(Value, seq<Answer>)>)
    ensures r.Some? ==> StrLen(AsString(r.value.0)) >= 6
    ensures r.Some? ==> |r.value.1| < |answers|
    ensures answers != [] && StrLen(AsString(Reply(answers[0], pd))) >= 6 ==> r == Some((Reply(answers[0], pd), answers[1..]))
    ensures (forall i :: 0 <= i < |answers| ==> answers[i].Accept?) && StrLen(AsString(pd)) < 6 ==> r.None?
    decreases |answers|
  {
    if answers == [] then None
    else
      var v := Reply(answers[0], pd);
      if StrLen(AsString(v)) >= 6 then Some((v, answers[1..])) else PasswordPrompt(answers[1..], pd)
  }

  /** The j-th answer, with pd for Enter, is shorter than 6 bytes: the prompt asks again. */
  predicate TooShort(answers: seq<Answer>, pd: Value, j: nat)
    requires j < |answers|
  {
    StrLen(AsString(Reply(answers[j], pd))) < 6
  }

  /** Dropping the first answer shifts the answers by one. */
  lemma TooShortShift(answers: seq<Answer>, pd: Value)
    requires answers != []
    ensures forall j :: 0 <= j < |answers| - 1 ==> TooShort(answers[1..], pd, j) == TooShort(answers, pd, j + 1)
  {
    forall j | 0 <= j < |answers| - 1 ensures TooShort(answers[1..], pd, j) == TooShort(answers, pd, j + 1) {
      assert answers[1..][j] == answers[j + 1];
    }
  }

  /** The prompt settles on the first answer long enough, and every answer before it was too short. */
  lemma {:induction false} PasswordPromptTakesFirstLong(answers: seq<Answer>, pd: Value)
    ensures var r := PasswordPrompt(answers, pd);
            r.Some? ==>
              var k := |answers| - |r.value.1| - 1;
              0 <= k < |answers| && r.value.0 == Reply(answers[k], pd) && r.value.1 == answers[k + 1..] &&
              forall j :: 0 <= j < k ==> TooShort(answers, pd, j)
    decreases |answers|
  {
    var r := PasswordPrompt(answers, pd);
    if r.Some? && !TooShort(answers, pd, 0) {
      assert r == Some((Reply(answers[0], pd), answers[1..]));
      assert |answers| - |r.value.1| - 1 == 0;
    } else if r.Some? {
      var tail := answers[1..];
      PasswordPromptTakesFirstLong(tail, pd);
      TooShortShift(answers, pd);
      var rt := PasswordPrompt(tail, pd);
      assert rt == r;
      var k := |answers| - |r.value.1| - 1;
      assert |tail| - |rt.value.1| - 1 == k - 1;
      assert tail[k - 1] == answers[k];
      assert tail[k..] == answers[k + 1..];
      forall j | 0 <= j < k ensures TooShort(answers, pd, j) {
        if j > 0 {
          assert TooShort(tail, pd, j - 1);
        }
      }
    }
  }

  /** The prompt ends without a password exactly when every answer is too short. */
  lemma {:induction false} PasswordPromptFailsOnlyOnShortAnswers(answers: seq<Answer>, pd: Value)
    ensures PasswordPrompt(answers, pd).None? <==> forall j :: 0 <= j < |answers| ==> TooShort(answers, pd, j)
    decreases |answers|
  {
    if answers != [] && TooShort(answers, pd, 0) {
      var tail := answers[1..];
      PasswordPromptFailsOnlyOnShortAnswers(tail, pd);
      TooShortShift(answers, pd);
      assert PasswordPrompt(answers, pd) == PasswordPrompt(tail, pd);
      if forall j :: 0 <= j < |tail| ==> TooShort(tail, pd, j) {
        forall j | 0 <= j < |answers| ensures TooShort(answers, pd, j) {
          if j > 0 {
            assert TooShort(tail, pd, j - 1);
          }
        }
      }
    }
  }

  /** Four umlauts pass the check: they are only four characters, but eight bytes. */
  lemma UmlautPasswordAccepted(pd: Value)
    ensures PasswordPrompt([Typed("\U{E4}\U{F6}\U{FC}\U{E4}")], pd) == Some((Str("\U{E4}\U{F6}\U{FC}\U{E4}"), []))
  {
    UmlautsAreTwoBytesEach();
  }

  /** Lazily the default is taken as it is, whatever its length. */
  function PasswordRule(c: Config, d: Value, answers: seq<Answer>): (r: Option<(Value, seq<Answer>)>)
    ensures c.lazy ==> r == Some((LazyValue(c, "userpass", d), answers))
    ensures !c.lazy && r.Some? ==> StrLen(AsString(r.value.0)) >= 6
    ensures !c.lazy && answers == [] ==> r.None?
    ensures var pd := LazyValue(c, "userpass", d);
            !c.lazy && answers != [] && StrLen(AsString(Reply(answers[0], pd))) >= 6 ==> r == Some((Reply(answers[0], pd), answers[1..]))
  {
    var pd := LazyValue(c, "userpass", d);
    if c.lazy then Some((pd, answers)) else PasswordPrompt(answers, pd)
  }

  /** The do-while of the confirmation prompt: asked again until the answer is identical to $pass. */
  function ConfirmPrompt(answers: seq<Answer>, pass: Value): (r: Option<(Value, seq<Answer>)>)
    ensures r.Some? ==> r.value.0 == pass
    ensures [Accept] <= answers ==> r == Some((pass, answers[1..]))
    decreases |answers|
  {
    if answers == [] then None
    else
      var v := Reply(answers[0], pass);
      if v == pass then Some((v, answers[1..])) else ConfirmPrompt(answers[1..], pass)
  }

  function ConfirmRule(c: Config, pass: Value, answers: seq<Answer>): (r: Option<(Value, seq<Answer>)>)
    ensures r.Some? ==> r.value.0 == pass
    ensures c.lazy ==> r == Some((pass, answers))
  {
    if c.lazy then Some((pass, answers)) else ConfirmPrompt(answers, pass)
  }

  // ----- remove_items -----

  /**
   * The foreach over the checkboxes, after the first n: lazily every value
   * is selected; otherwise each is confirmed in turn, Enter meaning yes.
   */
  function SelectItems(lazy: bool, cbs: seq<string>, answers: seq<Answer>): (r: Option<(seq<string>, seq<Answer>)>)
    ensures lazy ==> r == Some((cbs, answers))
    ensures r.Some? ==> |r.value.0| <= |cbs| && forall x :: x in r.value.0 ==> x in cbs
    ensures !lazy ==> (r.Some? <==> |answers| >= |cbs|)
    ensures !lazy && r.Some? ==> r.value.1 == answers[|cbs|..]
    decreases |cbs|
  {
    if cbs == [] then Some(([], answers))
    else
      var init, v := cbs[..|cbs| - 1], cbs[|cbs| - 1];
      assert cbs == init + [v];
      match SelectItems(lazy, init, answers)
      case None => None
      case Some((sel, rest)) =>
        if lazy then Some((sel + [v], rest))
        else if rest == [] then None
        else
          assert rest[1..] == answers[|cbs|..];
          Some((if ConfirmReply(rest[0], true) then sel + [v] else sel, rest[1..]))
  }

  /** One more checkbox: it is selected exactly when its own confirmation, the next answer, is yes. */
  lemma {:induction false} SelectItemsSnoc(cbs: seq<string>, v: string, answers: seq<Answer>)
    requires |answers| > |cbs|
    ensures SelectItems(false, cbs + [v], answers).value ==
            (SelectItems(false, cbs, answers).value.0 + (if ConfirmReply(answers[|cbs|], true) then [v] else []),
             answers[|cbs| + 1..])
  {
    var all := cbs + [v];
    assert all[..|all| - 1] == cbs && all[|all| - 1] == v;
    var pre := SelectItems(false, cbs, answers);
    var rest := pre.value.1;
    assert rest == answers[|cbs|..] && rest != [] && rest[0] == answers[|cbs|] && rest[1..] == answers[|cbs| + 1..];
    assert SelectItems(false, all, answers) ==
           Some((if ConfirmReply(rest[0], true) then pre.value.0 + [v] else pre.value.0, rest[1..]));
    assert pre.value.0 + [] == pre.value.0;
  }

  /** One checkbox is selected exactly when its confirmation is answered yes, Enter counting as yes. */
  lemma SelectItemsOne(x: string, answers: seq<Answer>)
    requires answers != []
    ensures SelectItems(false, [x], answers) == Some((if ConfirmReply(answers[0], true) then [x] else [], answers[1..]))
  {
    SelectItemsSnoc([], x, answers);
    assert [] + [x] == [x];
  }

  /**
   * The checkboxes are confirmed in order, one answer each: the selection
   * for a + b is the selection for a followed by the selection for b made
   * with the answers a leaves.
   */
  lemma {:induction false} SelectItemsSplit(a: seq<string>, b: seq<string>, answers: seq<Answer>)
    requires |answers| >= |a| + |b|
    ensures SelectItems(false, a + b, answers).value.0 ==
            SelectItems(false, a, answers).value.0 + SelectItems(false, b, answers[|a|..]).value.0
    decreases |b|
  {
    if b == [] {
      assert a + b == a;
    } else {
      var init, v := b[..|b| - 1], b[|b| - 1];
      assert a + b == (a + init) + [v] && b == init + [v];
      SelectItemsSplit(a, init, answers);
      var tail := answers[|a|..];
      assert tail[|init|] == answers[|a + init|];
      SelectItemsSnoc(a + init, v, answers);
      SelectItemsSnoc(init, v, tail);
    }
  }

  /** Answering every confirmation with Enter selects every checkbox. */
  lemma {:induction false} AcceptingSelectsAll(cbs: seq<string>, answers: seq<Answer>)
    requires |answers| >= |cbs| && forall i :: 0 <= i < |answers| ==> answers[i].Accept?
    ensures SelectItems(false, cbs, answers).Some? && SelectItems(false, cbs, answers).value.0 == cbs
    decreases |cbs|
  {
    if cbs != [] {
      var init := cbs[..|cbs| - 1];
      AcceptingSelectsAll(init, answers);
      assert init + [cbs[|cbs| - 1]] == cbs;
      assert answers[|init|..][0] == answers[|init|];
    }
  }

  // ----- dbTablesAction -----

  /** --remove, then --ignore, then (lazily) the default, then the operator's choice, "remove" on Enter. */
  function DbTablesActionRule(c: Config, d: Value, answers: seq<Answer>): (r: Option<(Value, seq<Answer>)>)
    ensures Truthy(CliOption(c, "remove")) ==> r == Some((Str("remove"), answers))
    ensures !Truthy(CliOption(c, "remove")) && Truthy(CliOption(c, "ignore")) ==> r == Some((Str("ignore"), answers))
    ensures !Truthy(CliOption(c, "remove")) && !Truthy(CliOption(c, "ignore")) && c.lazy ==> r == Some((d, answers))
    ensures !c.lazy && r.Some? ==> r.value.0 == Str("remove") || r.value.0 == Str("ignore")
  {
    if Truthy(CliOption(c, "remove")) then Some((Str("remove"), answers))
    else if Truthy(CliOption(c, "ignore")) then Some((Str("ignore"), answers))
    else if c.lazy then Some((d, answers))
    else
      match Choose(answers, ["remove", "ignore"], "remove")
      case None => None
      case Some((v, rest)) => Some((Str(v), rest))
  }

  // ----- every other field -----

  function GenericRule(c: Config, d: Value, answers: seq<Answer>): (r: Option<(Value, seq<Answer>)>)
    ensures c.lazy ==> r == Some((d, answers))
    ensures !c.lazy ==> r == Ask(answers, d)
  {
    if c.lazy then Some((d, answers)) else Ask(answers, d)
  }

  /** The value one field receives and the answers left, or None when the operator runs out. */
  function FieldRule(c: Config, defaults: map<string, Value>, form: Form, f: FormField, pass: Value, answers: seq<Answer>)
    : (r: Option<(Value, seq<Answer>)>)
    ensures c.lazy && f.name != "timezone" ==> r.Some? && r.value.1 == answers
  {
    var d := FieldDefault(c, defaults, f);
    if f.name == "timezone" then TimezoneRule(c, form.timezones, d, answers)
    else if f.name == "httpHosts" then HostsRule(c, d, answers)
    else if f.name == "admin_name" then AdminNameRule(c, d, answers)
    else if f.name == "userpass" then PasswordRule(c, d, answers)
    else if f.name == "userpass_confirm" then ConfirmRule(c, pass, answers)
    else if f.name == "remove_items" then
      match SelectItems(c.lazy, form.checkboxes, answers)
      case None => None
      case Some((sel, rest)) => Some((Strs(sel), rest))
    else if f.name == "dbTablesAction" then DbTablesActionRule(c, d, answers)
    else GenericRule(c, d, answers)
  }

  /** A field rule: what one field receives, and the answers left, given $pass. */
  type Rule = (FormField, Value, seq<Answer>) -> Option<(Value, seq<Answer>)>

  /** The branches of the foreach body, for one form on one page. */
  function Rules(c: Config, defaults: map<string, Value>, form: Form): Rule {
    (f: FormField, pass: Value, answers: seq<Answer>) => FieldRule(c, defaults, form, f, pass, answers)
  }

  /** One turn of the foreach, on field i. */
  function FillStep(rule: Rule, fields: seq<FormField>, st: FillState, i: nat): (r: Option<FillState>)
    requires i < |fields|
    requires HasFields(st.values, fields)
    ensures r.Some? ==> HasFields(r.value.values, fields)
    ensures st.skipAll ==> r == Some(st)
    ensures !st.skipAll ==> (r.Some? <==> rule(fields[i], st.pass, st.rest).Some?)
    ensures !st.skipAll && r.Some? ==>
              r.value.values[fields[i].name] == rule(fields[i], st.pass, st.rest).value.0 &&
              r.value.rest == rule(fields[i], st.pass, st.rest).value.1
    ensures r.Some? ==> r.value.skipAll == (st.skipAll || fields[i].name == "dbTablesAction")
    ensures r.Some? ==> r.value.pass == if !st.skipAll && fields[i].name == "userpass" then r.value.values["userpass"] else st.pass
    ensures r.Some? ==> forall k :: k in st.values && k != fields[i].name ==> k in r.value.values && r.value.values[k] == st.values[k]
  {
    var f := fields[i];
    if st.skipAll then Some(st)
    else
      match rule(f, st.pass, st.rest)
      case None => None
      case Some((v, rest)) =>
        Some(FillState(st.values[f.name := v], if f.name == "userpass" then v else st.pass,
                       f.name == "dbTablesAction", rest))
  }

  /** The state after the first n fields; the form's keys never change. */
  function FillPrefix(rule: Rule, fields: seq<FormField>, answers: seq<Answer>, n: nat): (r: Option<FillState>)
    requires n <= |fields|
    ensures r.Some? ==> HasFields(r.value.values, fields)
    decreases n
  {
    if n == 0 then Some(FillState(InitialValues(fields), Str(""), false, answers))
    else
      match FillPrefix(rule, fields, answers, n - 1)
      case None => None
      case Some(st) => FillStep(rule, fields, st, n - 1)
  }

  /** fillForm($defaults) on the current page: no form is an error, so is an operator who runs out. */
  function FillSpec(c: Config, defaults: map<string, Value>, form: Option<Form>, answers: seq<Answer>): Result<FillState, FillError> {
    match form
    case None => Err(NoForm)
    case Some(fm) =>
      match FillPrefix(Rules(c, defaults, fm), fm.fields, answers, |fm.fields|)
      case None => Err(NoAnswer)
      case Some(st) => Ok(st)
  }

  // ----- facts about the fold, for any rule -----

  /** No dbTablesAction among the first i fields: field i is still handled. */
  predicate Reached(fields: seq<FormField>, i: nat) {
    forall k :: 0 <= k < i && k < |fields| ==> fields[k].name != "dbTablesAction"
  }

  /** A handled userpass field precedes position n. */
  predicate PassSetBefore(fields: seq<FormField>, n: nat) {
    exists i :: 0 <= i < n && i < |fields| && fields[i].name == "userpass" && Reached(fields, i)
  }

  lemma {:induction false} PrefixFailureSticks(rule: Rule, fields: seq<FormField>, answers: seq<Answer>, m: nat, n: nat)
    requires m <= n <= |fields|
    requires FillPrefix(rule, fields, answers, m).None?
    ensures FillPrefix(rule, fields, answers, n).None?
    decreases n
  {
    if m < n {
      PrefixFailureSticks(rule, fields, answers, m, n - 1);
    }
  }

  /** $skipAll is set exactly once dbTablesAction has been passed. */
  lemma {:induction false} SkipAllFact(rule: Rule, fields: seq<FormField>, answers: seq<Answer>, n: nat)
    requires n <= |fields|
    requires FillPrefix(rule, fields, answers, n).Some?
    ensures FillPrefix(rule, fields, answers, n).value.skipAll <==> !Reached(fields, n)
    decreases n
  {
    if n > 0 {
      SkipAllFact(rule, fields, answers, n - 1);
      assert Reached(fields, n) <==> Reached(fields, n - 1) && fields[n - 1].name != "dbTablesAction";
    }
  }

  lemma PassSetStep(fields: seq<FormField>, n: nat)
    requires 0 < n <= |fields|
    ensures PassSetBefore(fields, n) <==>
            PassSetBefore(fields, n - 1) || (fields[n - 1].name == "userpass" && Reached(fields, n - 1))
  {
    if PassSetBefore(fields, n) && !(fields[n - 1].name == "userpass" && Reached(fields, n - 1)) {
      var i :| 0 <= i < n && i < |fields| && fields[i].name == "userpass" && Reached(fields, i);
      assert i < n - 1;
    }
  }

  /** $pass is the settled userpass once a handled userpass field has been passed, and "" before. */
  lemma {:induction false} PassFact(rule: Rule, fields: seq<FormField>, answers: seq<Answer>, n: nat)
    requires n <= |fields|
    requires FillPrefix(rule, fields, answers, n).Some?
    ensures var st := FillPrefix(rule, fields, answers, n).value;
            st.pass == if PassSetBefore(fields, n) then st.values["userpass"] else Str("")
    decreases n
  {
    if n > 0 {
      var st0 := FillPrefix(rule, fields, answers, n - 1).value;
      var st := FillPrefix(rule, fields, answers, n).value;
      assert Some(st) == FillStep(rule, fields, st0, n - 1);
      PassFact(rule, fields, answers, n - 1);
      SkipAllFact(rule, fields, answers, n - 1);
      PassSetStep(fields, n);
      if !st0.skipAll && fields[n - 1].name == "userpass" {
        assert st.pass == st.values["userpass"];
      } else {
        assert st.pass == st0.pass;
        assert PassSetBefore(fields, n) == PassSetBefore(fields, n - 1);
        if PassSetBefore(fields, n - 1) {
          assert st.values["userpass"] == st0.values["userpass"];
        }
      }
    }
  }

  /** Once field i is settled, later turns leave its value alone. */
  lemma {:induction false} ValueFrame(rule: Rule, fields: seq<FormField>, answers: seq<Answer>, i: nat, n: nat)
    requires DistinctNames(fields) && i < n <= |fields|
    requires FillPrefix(rule, fields, answers, n).Some?
    ensures FillPrefix(rule, fields, answers, i + 1).Some?
    ensures FillPrefix(rule, fields, answers, n).value.values[fields[i].name] ==
            FillPrefix(rule, fields, answers, i + 1).value.values[fields[i].name]
    decreases n
  {
    if n > i + 1 {
      var st0 := FillPrefix(rule, fields, answers, n - 1).value;
      assert FillPrefix(rule, fields, answers, n) == FillStep(rule, fields, st0, n - 1);
      ValueFrame(rule, fields, answers, i, n - 1);
      assert fields[n - 1].name != fields[i].name;
      assert fields[i].name in st0.values;
    }
  }

  /** Before its own turn a field still has the value the form gave it. */
  lemma {:induction false} UntouchedBeforeTurn(rule: Rule, fields: seq<FormField>, answers: seq<Answer>, i: nat, n: nat)
    requires DistinctNames(fields) && n <= i < |fields|
    requires FillPrefix(rule, fields, answers, n).Some?
    ensures FillPrefix(rule, fields, answers, n).value.values[fields[i].name] == fields[i].value
    decreases n
  {
    if n == 0 {
      InitialValueOf(fields, i);
    } else {
      var st0 := FillPrefix(rule, fields, answers, n - 1).value;
      assert FillPrefix(rule, fields, answers, n) == FillStep(rule, fields, st0, n - 1);
      UntouchedBeforeTurn(rule, fields, answers, i, n - 1);
      assert fields[n - 1].name != fields[i].name;
      assert fields[i].name in st0.values;
    }
  }

  /** The value a handled field ends with is what its rule gives on the state reached before it. */
  lemma SettledByRule(rule: Rule, fields: seq<FormField>, answers: seq<Answer>, i: nat)
    requires DistinctNames(fields) && i < |fields| && Reached(fields, i)
    requires FillPrefix(rule, fields, answers, |fields|).Some?
    ensures FillPrefix(rule, fields, answers, i).Some?
    ensures var st0 := FillPrefix(rule, fields, answers, i).value;
            var out := rule(fields[i], st0.pass, st0.rest);
            out.Some? && FillPrefix(rule, fields, answers, |fields|).value.values[fields[i].name] == out.value.0
  {
    ValueFrame(rule, fields, answers, i, |fields|);
    SkipAllFact(rule, fields, answers, i);
  }

  /** A field after dbTablesAction keeps the value the form gave it. */
  lemma FrozenField(rule: Rule, fields: seq<FormField>, answers: seq<Answer>, j: nat)
    requires DistinctNames(fields) && j < |fields| && !Reached(fields, j)
    requires FillPrefix(rule, fields, answers, |fields|).Some?
    ensures FillPrefix(rule, fields, answers, |fields|).value.values[fields[j].name] == fields[j].value
  {
    ValueFrame(rule, fields, answers, j, |fields|);
    SkipAllFact(rule, fields, answers, j);
    UntouchedBeforeTurn(rule, fields, answers, j, j);
  }

  // ----- what fillForm promises -----

  /** Every field after dbTablesAction keeps the value the form already had. */
  lemma FrozenAfterDbTablesAction(c: Config, defaults: map<string, Value>, form: Form, answers: seq<Answer>, k: nat, j: nat)
    requires DistinctNames(form.fields) && k < j < |form.fields| && form.fields[k].name == "dbTablesAction"
    requires FillSpec(c, defaults, Some(form), answers).Ok?
    ensures FillSpec(c, defaults, Some(form), answers).value.values[form.fields[j].name] == form.fields[j].value
  {
    FrozenField(Rules(c, defaults, form), form.fields, answers, j);
  }

  lemma {:induction false} KeysStable(rule: Rule, fields: seq<FormField>, answers: seq<Answer>, n: nat)
    requires n <= |fields|
    requires FillPrefix(rule, fields, answers, n).Some?
    ensures FillPrefix(rule, fields, answers, n).value.values.Keys == InitialValues(fields).Keys
    decreases n
  {
    if n > 0 {
      KeysStable(rule, fields, answers, n - 1);
      var st0 := FillPrefix(rule, fields, answers, n - 1).value;
      assert fields[n - 1].name in st0.values;
    }
  }

  /** The form keeps exactly its own field names. */
  lemma FillKeepsKeys(c: Config, defaults: map<string, Value>, form: Form, answers: seq<Answer>)
    requires FillSpec(c, defaults, Some(form), answers).Ok?
    ensures FillSpec(c, defaults, Some(form), answers).value.values.Keys == InitialValues(form.fields).Keys
    ensures FillSpec(c, defaults, Some(form), answers).value.values.Keys == FieldNames(form.fields)
  {
    KeysStable(Rules(c, defaults, form), form.fields, answers, |form.fields|);
    InitialValuesKeys(form.fields);
  }

  /**
   * userpass_confirm is set to the password settled for userpass when that
   * field came earlier, and to the empty string otherwise.
   */
  lemma ConfirmEchoesPassword(c: Config, defaults: map<string, Value>, form: Form, answers: seq<Answer>, j: nat)
    requires DistinctNames(form.fields) && j < |form.fields| && Reached(form.fields, j)
    requires form.fields[j].name == "userpass_confirm"
    requires FillSpec(c, defaults, Some(form), answers).Ok?
    ensures var vs := FillSpec(c, defaults, Some(form), answers).value.values;
            vs["userpass_confirm"] == if PassSetBefore(form.fields, j) then vs["userpass"] else Str("")
  {
    var rule, fields, n := Rules(c, defaults, form), form.fields, |form.fields|;
    SettledByRule(rule, fields, answers, j);
    PassFact(rule, fields, answers, j);
    var st0 := FillPrefix(rule, fields, answers, j).value;
    var vs := FillSpec(c, defaults, Some(form), answers).value.values;
    if PassSetBefore(fields, j) {
      var i :| 0 <= i < j && i < n && fields[i].name == "userpass" && Reached(fields, i);
      ValueFrame(rule, fields, answers, i, n);
      ValueFrame(rule, fields, answers, i, j);
      assert st0.values["userpass"] == vs["userpass"];
    }
  }

  /** Interactively, the password the form receives is at least 6 bytes long. */
  lemma InteractivePasswordLong(c: Config, defaults: map<string, Value>, form: Form, answers: seq<Answer>, i: nat)
    requires !c.lazy && DistinctNames(form.fields) && i < |form.fields| && Reached(form.fields, i)
    requires form.fields[i].name == "userpass"
    requires FillSpec(c, defaults, Some(form), answers).Ok?
    ensures StrLen(AsString(FillSpec(c, defaults, Some(form), answers).value.values["userpass"])) >= 6
  {
    SettledByRule(Rules(c, defaults, form), form.fields, answers, i);
  }

  /** Lazily, the password is the field's default as it is: no length check applies. */
  lemma LazyPasswordUnchecked(c: Config, defaults: map<string, Value>, form: Form, answers: seq<Answer>, i: nat)
    requires c.lazy && DistinctNames(form.fields) && i < |form.fields| && Reached(form.fields, i)
    requires form.fields[i].name == "userpass"
    requires FillSpec(c, defaults, Some(form), answers).Ok?
    ensures FillSpec(c, defaults, Some(form), answers).value.values["userpass"] == FieldDefault(c, defaults, form.fields[i])
  {
    SettledByRule(Rules(c, defaults, form), form.fields, answers, i);
    var f := form.fields[i];
    LazyValueAbsorbs(c, "userpass", if f.name in defaults then defaults[f.name] else f.value);
  }

  /** --remove decides dbTablesAction, lazily or not. */
  lemma RemoveFlagWins(c: Config, defaults: map<string, Value>, form: Form, answers: seq<Answer>, k: nat)
    requires DistinctNames(form.fields) && k < |form.fields| && Reached(form.fields, k)
    requires form.fields[k].name == "dbTablesAction" && Truthy(CliOption(c, "remove"))
    requires FillSpec(c, defaults, Some(form), answers).Ok?
    ensures FillSpec(c, defaults, Some(form), answers).value.values["dbTablesAction"] == Str("remove")
  {
    SettledByRule(Rules(c, defaults, form), form.fields, answers, k);
    var f := form.fields[k];
    forall p: Value, a: seq<Answer>
      ensures FieldRule(c, defaults, form, f, p, a) == DbTablesActionRule(c, FieldDefault(c, defaults, f), a)
    {
      DispatchDbTablesAction(c, defaults, form, f, p, a);
    }
  }

  lemma DispatchDbTablesAction(c: Config, defaults: map<string, Value>, form: Form, f: FormField, p: Value, a: seq<Answer>)
    requires f.name == "dbTablesAction"
    ensures FieldRule(c, defaults, form, f, p, a) == DbTablesActionRule(c, FieldDefault(c, defaults, f), a)
  {
    assert f.name[0] == 'd';
  }

  lemma {:induction false} LazyPrefixNeedsNoOperator(c: Config, defaults: map<string, Value>, form: Form, answers: seq<Answer>, n: nat)
    requires c.lazy && n <= |form.fields|
    requires forall i :: 0 <= i < |form.fields| ==> form.fields[i].name != "timezone"
    ensures FillPrefix(Rules(c, defaults, form), form.fields, answers, n).Some?
    ensures FillPrefix(Rules(c, defaults, form), form.fields, answers, n).value.rest == answers
    decreases n
  {
    if n > 0 {
      LazyPrefixNeedsNoOperator(c, defaults, form, answers, n - 1);
      var rule := Rules(c, defaults, form);
      var st := FillPrefix(rule, form.fields, answers, n - 1).value;
      var f := form.fields[n - 1];
      assert rule(f, st.pass, st.rest) == FieldRule(c, defaults, form, f, st.pass, st.rest);
      assert FillPrefix(rule, form.fields, answers, n) == FillStep(rule, form.fields, st, n - 1);
    }
  }

  /** A lazy run over a form without a timezone field never asks the operator anything. */
  lemma LazyFillNeedsNoOperator(c: Config, defaults: map<string, Value>, form: Form, answers: seq<Answer>)
    requires c.lazy
    requires forall i :: 0 <= i < |form.fields| ==> form.fields[i].name != "timezone"
    ensures FillSpec(c, defaults, Some(form), answers).Ok?
    ensures FillSpec(c, defaults, Some(form), answers).value.rest == answers
  {
    LazyPrefixNeedsNoOperator(c, defaults, form, answers, |form.fields|);
  }

  // ----- the imperative fillForm -----

  /** The each() over the timezone options: fills $options and $phpTimezones. */
  method TimezoneOptions(tzs: seq<TzOption>) returns (labels: Assoc, names: Assoc)
    ensures labels == Labels(tzs) && names == Names(tzs)
  {
    labels, names := [], [];
    var i := 0;
    while i < |tzs|
      invariant 0 <= i <= |tzs|
      invariant labels == Labels(tzs[..i]) && names == Names(tzs[..i])
    {
      var o := tzs[i];
      assert tzs[..i + 1][..i] == tzs[..i];
      labels := Put(labels, o.key, ToLower(TzLabel(o.text)));
      names := Put(names, o.key, o.text);
      i := i + 1;
    }
    assert tzs[..|tzs|] == tzs;
  }

  /** The foreach over $phpTimezones that stops at the first name matching the default. */
  method FindKeyOfName(names: Assoc, wanted: string) returns (key: Option<string>)
    ensures key == KeyOfName(names, wanted)
  {
    var j := 0;
    while j < |names|
      invariant 0 <= j <= |names|
      invariant KeyOfName(names, wanted) == KeyOfName(names[j..], wanted)
    {
      assert names[j..][1..] == names[j + 1..];
      if ToLower(names[j].1) == ToLower(wanted) {
        return Some(names[j].0);
      }
      j := j + 1;
    }
    return None;
  }

  /** The timezone branch. */
  method TimezoneField(c: Config, tzs: seq<TzOption>, d: Value, answers: seq<Answer>) returns (r: Option<(Value, seq<Answer>)>)
    ensures r == TimezoneRule(c, tzs, d, answers)
  {
    var labels, names := TimezoneOptions(tzs);
    var key: Option<string> := None;
    if Truthy(d) {
      key := FindKeyOfName(names, AsString(d));
    }
    assert key == TimezoneKey(tzs, d);
    if c.lazy && key.Some? {
      return Some((Str(key.value), answers));
    }
    if answers == [] {
      return None;
    }
    var chosen := Reply(answers[0], d);
    assert Ask(answers, d) == Some((chosen, answers[1..]));
    var found := KeyOfLabel(labels, AsString(chosen));
    var value := if found.Some? then found.value else "0";
    return Some((Str(value), answers[1..]));
  }

  /** The userpass branch with its do-while. */
  method PasswordField(c: Config, d: Value, answers: seq<Answer>) returns (r: Option<(Value, seq<Answer>)>)
    ensures r == PasswordRule(c, d, answers)
  {
    var pd := LazyValue(c, "userpass", d);
    if c.lazy {
      return Some((pd, answers));
    }
    var rest := answers;
    while true
      invariant PasswordPrompt(rest, pd) == PasswordRule(c, d, answers)
      decreases |rest|
    {
      if rest == [] {
        return None;
      }
      var value := Reply(rest[0], pd);
      rest := rest[1..];
      if StrLen(AsString(value)) >= 6 {
        return Some((value, rest));
      }
    }
  }

  /** The userpass_confirm branch with its do-while. */
  method ConfirmField(c: Config, pass: Value, answers: seq<Answer>) returns (r: Option<(Value, seq<Answer>)>)
    ensures r == ConfirmRule(c, pass, answers)
  {
    if c.lazy {
      return Some((pass, answers));
    }
    var rest := answers;
    while true
      invariant ConfirmPrompt(rest, pass) == ConfirmRule(c, pass, answers)
      decreases |rest|
    {
      if rest == [] {
        return None;
      }
      var value := Reply(rest[0], pass);
      rest := rest[1..];
      if value == pass {
        return Some((value, rest));
      }
    }
  }

  /** The remove_items branch: the foreach over the checkboxes. */
  method RemoveItemsField(c: Config, cbs: seq<string>, answers: seq<Answer>) returns (r: Option<(seq<string>, seq<Answer>)>)
    ensures r == SelectItems(c.lazy, cbs, answers)
  {
    var selected: seq<string> := [];
    var rest := answers;
    var i := 0;
    while i < |cbs|
      invariant 0 <= i <= |cbs|
      invariant SelectItems(c.lazy, cbs[..i], answers) == Some((selected, rest))
    {
      assert cbs[..i + 1][..i] == cbs[..i];
      var value := cbs[i];
      if c.lazy {
        selected := selected + [value];
      } else {
        if rest == [] {
          return None;
        }
        if ConfirmReply(rest[0], true) {
          selected := selected + [value];
        }
        rest := rest[1..];
      }
      i := i + 1;
    }
    assert cbs[..|cbs|] == cbs;
    return Some((selected, rest));
  }

  /** The httpHosts branch: a non-empty default goes through cleanHttpHostsArray first. */
  method HostsField(c: Config, d: Value, answers: seq<Answer>) returns (r: Option<(Value, seq<Answer>)>)
    ensures r == HostsRule(c, d, answers)
  {
    var pd := d;
    if Truthy(d) {
      var lines := CleanHttpHostsArray(HostsInputOf(d));
      pd := Str(Join(lines, "\n"));
    }
    var value: Value;
    var rest := answers;
    if c.lazy {
      value := pd;
    } else {
      if answers == [] {
        return None;
      }
      value := Reply(answers[0], pd);
      rest := answers[1..];
    }
    return Some((Str(HostLines(value)), rest));
  }

  /** One field of the foreach, dispatched on its name. */
  method FillField(c: Config, defaults: map<string, Value>, form: Form, f: FormField, pass: Value, answers: seq<Answer>)
    returns (r: Option<(Value, seq<Answer>)>)
    ensures r == FieldRule(c, defaults, form, f, pass, answers)
  {
    var d := FieldDefault(c, defaults, f);
    if f.name == "timezone" {
      r := TimezoneField(c, form.timezones, d, answers);
    } else if f.name == "httpHosts" {
      r := HostsField(c, d, answers);
    } else if f.name == "admin_name" {
      r := AdminNameRule(c, d, answers);
    } else if f.name == "userpass" {
      r := PasswordField(c, d, answers);
    } else if f.name == "userpass_confirm" {
      r := ConfirmField(c, pass, answers);
    } else if f.name == "remove_items" {
      var sel := RemoveItemsField(c, form.checkboxes, answers);
      r := if sel.Some? then Some((Strs(sel.value.0), sel.value.1)) else None;
    } else if f.name == "dbTablesAction" {
      r := DbTablesActionRule(c, d, answers);
    } else {
      r := GenericRule(c, d, answers);
    }
  }

  /** fillForm($defaults). */
  method FillForm(c: Config, defaults: map<string, Value>, form: Option<Form>, answers: seq<Answer>)
    returns (r: Result<FillState, FillError>)
    ensures r == FillSpec(c, defaults, form, answers)
  {
    if form.None? {
      return Err(NoForm);
    }
    var fm := form.value;
    ghost var rule := Rules(c, defaults, fm);
    var values := InitialValues(fm.fields);
    var pass := Str("");
    var skipAll := false;
    var rest := answers;
    var i := 0;
    while i < |fm.fields|
      invariant 0 <= i <= |fm.fields|
      invariant FillPrefix(rule, fm.fields, answers, i) == Some(FillState(values, pass, skipAll, rest))
    {
      var next := FillTurn(c, defaults, fm, FillState(values, pass, skipAll, rest), i);
      if next.None? {
        PrefixFailureSticks(rule, fm.fields, answers, i + 1, |fm.fields|);
        return Err(NoAnswer);
      }
      values, pass, skipAll, rest := next.value.values, next.value.pass, next.value.skipAll, next.value.rest;
      i := i + 1;
    }
    return Ok(FillState(values, pass, skipAll, rest));
  }

  /** One turn of the foreach of fillForm: skipped after dbTablesAction, else the field is filled. */
  method FillTurn(c: Config, defaults: map<string, Value>, fm: Form, st: FillState, i: nat) returns (r: Option<FillState>)
    requires i < |fm.fields| && HasFields(st.values, fm.fields)
    ensures r == FillStep(Rules(c, defaults, fm), fm.fields, st, i)
  {
    if st.skipAll {
      return Some(st);
    }
    var f := fm.fields[i];
    var out := FillField(c, defaults, fm, f, st.pass, st.rest);
    assert Rules(c, defaults, fm)(f, st.pass, st.rest) == out;
    if out.None? {
      return None;
    }
    var value := out.value.0;
    var pass := st.pass;
    if f.name == "userpass" {
      pass := value;
    }
    var skipAll := false;
    if f.name == "dbTablesAction" {
      skipAll := true;
    }
    return Some(FillState(st.values[f.name := value], pass, skipAll, out.value.1));
  }
}
