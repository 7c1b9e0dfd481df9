/**
 * The installer's driver: nextStep and the step handlers it dispatches
 * to, getStep, host() and the command's entry point. The browser is a
 * server function from the history of what the installer did (requests,
 * form submissions, downloads) to the page the crawler then sees; URL
 * probes are a status function. Every decision the operator or the
 * configuration takes is a pure function below, and the class methods
 * follow those decisions while updating the command's fields.
 */
module Installer {
  import opened Wrappers
  import opened Strings
  import opened Values
  import opened Cascade
  import opened Urls
  import opened Steps
  import opened Console
  import opened FormFill

  /** What the installer does to the world, in order. */
  datatype Event =
    | Get(url: string)
    | Submit(button: string, values: map<string, Value>)
    | DownloadProcessWire(version: string)
    | FetchRockFrontend

  /**
   * What the crawler reports about the current page: the outer HTML of the
   * h1 ("" when there is none), the h2 texts in document order, the outer
   * HTML of the compatibility rows, the value attributes of the profile
   * options and the installer form.
   */
  datatype PageView = PageView(h1: string, h2s: seq<string>, compatRows: seq<string>, profiles: seq<string>, form: Option<Form>)

  /** What nextStep and the step handlers return to PHP: null or false. */
  datatype Ret = RetNull | RetFalse

  /** Why the process ended early (die(), exit(1), an uncaught error, or an operator who stopped answering). */
  datatype Halt =
    | IndexPhpFound
    | DownloadDeclined
    | NoProfiles
    | CompatAborted
    | HostUnreachable
    | FormMissing
    | InputExhausted
    | Finished

  datatype Outcome = Returned(ret: Ret) | Halted(why: Halt)

  /** The exit of handle(). */
  datatype Exit = Failure | Success | Stopped(why: Halt)

  /** The hard limit of nextStep. */
  const StepLimit: nat := 50

  /** Calls of nextStep still allowed to run a step. */
  function Remaining(n: nat): nat {
    if n <= StepLimit then StepLimit + 1 - n else 0
  }

  function Capped(n: nat): nat {
    if n <= StepLimit then n else StepLimit
  }

  // ----- host() -----

  /**
   * The host host() settles on and the answers left: the cached host, else
   * the --host option, else (lazily) getLazyValue('host', $defaulthost),
   * else the operator's answer to "Enter host". None when that prompt finds
   * no answer.
   */
  function ChosenHost(cached: string, c: Config, env: Env, answers: seq<Answer>): (r: Option<(string, seq<Answer>)>)
    ensures TruthyString(cached) ==> r == Some((cached, answers))
    ensures r.None? <==> !TruthyString(cached) && !Truthy(CliOption(c, "host")) && !c.lazy && answers == []
    ensures r.Some? ==> r.value.1 == answers || (!c.lazy && answers != [] && r.value.1 == answers[1..])
    ensures !TruthyString(cached) && Truthy(CliOption(c, "host")) ==> r == Some((AsString(CliOption(c, "host")), answers))
    ensures !TruthyString(cached) && !Truthy(CliOption(c, "host")) && c.lazy ==>
              r == Some((AsString(LazyValue(c, "host", Str(DefaultHost(env)))), answers))
    ensures !TruthyString(cached) && !Truthy(CliOption(c, "host")) && !c.lazy && answers != [] ==>
              r == Some((AsString(Reply(answers[0], Str(DefaultHost(env)))), answers[1..]))
  {
    var cli := CliOption(c, "host");
    if TruthyString(cached) then Some((cached, answers))
    else if Truthy(cli) then Some((AsString(cli), answers))
    else if c.lazy then Some((AsString(LazyValue(c, "host", Str(DefaultHost(env)))), answers))
    else
      match Ask(answers, Str(DefaultHost(env)))
      case None => None
      case Some((v, rest)) => Some((AsString(v), rest))
  }

  /** "$url/$site" for the first reachable URL of us, None when none answers. */
  function FirstReachableSite(us: seq<string>, site: string, status: string -> int): (r: Option<string>)
    ensures r.Some? ==> exists i :: 0 <= i < |us| && Reachable(status(us[i])) && r.value == us[i] + "/" + LTrimSlash(site) &&
                                    forall j :: 0 <= j < i ==> !Reachable(status(us[j]))
    ensures r.None? <==> forall i :: 0 <= i < |us| ==> !Reachable(status(us[i]))
  {
    match FirstReachableOf(us, status)
    case None => None
    case Some(u) => Some(u + "/" + LTrimSlash(site))
  }

  /** "$url/$site" for the first reachable candidate of the host, None when none answers. */
  function HostUrl(h: string, site: string, env: Env, status: string -> int): (r: Option<string>)
    ensures var us := CandidateUrls(h, env);
            r.Some? ==> exists i :: 0 <= i < |us| && Reachable(status(us[i])) && r.value == us[i] + "/" + LTrimSlash(site) &&
                                    forall j :: 0 <= j < i ==> !Reachable(status(us[j]))
    ensures var us := CandidateUrls(h, env);
            r.None? <==> forall i :: 0 <= i < |us| ==> !Reachable(status(us[i]))
  {
    FirstReachableSite(CandidateUrls(h, env), site, status)
  }

  /** Interactively, pressing Enter takes the DDEV (or example.com) default host. */
  lemma EnterTakesDefaultHost(c: Config, env: Env, rest: seq<Answer>)
    requires !c.lazy && !Truthy(CliOption(c, "host"))
    ensures ChosenHost("", c, env, [Accept] + rest) == Some((DefaultHost(env), rest))
  {
    assert ([Accept] + rest)[1..] == rest;
  }

  /** A host without a port is probed only on the DDEV router ports, so without them it is never reachable. */
  lemma PortlessHostNeedsRouterPorts(h: string, site: string, env: Env, status: string -> int)
    requires SplitHostPort(h).port.None? && env.httpPort == 0 && env.httpsPort == 0
    ensures HostUrl(h, site, env, status).None?
  {
    assert |CandidateUrls(h, env)| == 0;
  }

  // ----- getStep without an installer page -----

  /**
   * Whether to download ProcessWire, and which version, with the answers
   * left: lazily the download_processwire and processwire_version values
   * decide; otherwise the operator confirms and then picks master or dev.
   * Some((None, _)) is a refusal; None means a prompt found no answer.
   */
  function DownloadChoice(c: Config, answers: seq<Answer>): (r: Option<(Option<string>, seq<Answer>)>)
    ensures c.lazy ==> r.Some? && r.value.1 == answers &&
                       (r.value.0.Some? <==> Truthy(LazyValue(c, "download_processwire", Bool(true))))
    ensures c.lazy && r.value.0.Some? ==> r.value.0.value == AsString(LazyValue(c, "processwire_version", Str("dev")))
    ensures !c.lazy && answers != [] && !ConfirmReply(answers[0], true) ==> r == Some((None, answers[1..]))
    ensures !c.lazy && (answers == [] || (ConfirmReply(answers[0], true) && |answers| == 1)) ==> r.None?
    ensures !c.lazy && |answers| >= 2 && ConfirmReply(answers[0], true) ==>
              var pick := ChoiceOf(LineOf(answers[1], AsString(LazyValue(c, "processwire_version", Str("dev")))), ["master", "dev"]);
              pick.Some? ==> r == Some((pick, answers[2..]))
  {
    var version := LazyValue(c, "processwire_version", Str("dev"));
    if c.lazy then
      if Truthy(LazyValue(c, "download_processwire", Bool(true))) then Some((Some(AsString(version)), answers))
      else Some((None, answers))
    else if answers == [] then None
    else if !ConfirmReply(answers[0], true) then Some((None, answers[1..]))
    else
      assert |answers| >= 2 ==> answers[1..][0] == answers[1] && answers[1..][1..] == answers[2..];
      match Choose(answers[1..], ["master", "dev"], AsString(version))
      case None => None
      case Some((v, rest)) => Some((Some(v), rest))
  }

  /** An interactive download is always of the master or the dev branch. */
  lemma InteractiveVersionIsBranch(c: Config, answers: seq<Answer>)
    requires !c.lazy
    requires DownloadChoice(c, answers).Some? && DownloadChoice(c, answers).value.0.Some?
    ensures DownloadChoice(c, answers).value.0.value in ["master", "dev"]
    ensures |DownloadChoice(c, answers).value.1| < |answers|
  {
  }

  /** With the built-in table and no options, lazy mode downloads the dev branch without a prompt. */
  lemma LazyDownloadsDev(answers: seq<Answer>)
    ensures DownloadChoice(Config(true, map[], LazyDefaults), answers) == Some((Some("dev"), answers))
  {
    var c := Config(true, map[], LazyDefaults);
    assert CliOption(c, "download_processwire") == Null;
    assert CliOption(c, "processwire_version") == Null;
  }

  // ----- stepProfile -----

  /**
   * Whether stepProfile fetches the RockFrontend profile, and the answers
   * left: never when its directory exists; lazily as
   * download_rockfrontend says; otherwise as the operator confirms.
   */
  function FetchProfileChoice(c: Config, dirExists: bool, answers: seq<Answer>): (r: Option<(bool, seq<Answer>)>)
    ensures dirExists ==> r == Some((false, answers))
    ensures !dirExists && c.lazy ==> r == Some((Truthy(LazyValue(c, "download_rockfrontend", Bool(true))), answers))
    ensures !dirExists && !c.lazy ==> (r.None? <==> answers == [])
    ensures !dirExists && !c.lazy && answers != [] ==> r == Some((ConfirmReply(answers[0], true), answers[1..]))
  {
    if dirExists then Some((false, answers))
    else if c.lazy then Some((Truthy(LazyValue(c, "download_rockfrontend", Bool(true))), answers))
    else if answers == [] then None
    else Some((ConfirmReply(answers[0], true), answers[1..]))
  }

  /** The built-in table's false overrides the fallback true: lazy mode fetches only when told to. */
  lemma LazyFetchesOnlyWhenTold(c: Config, answers: seq<Answer>)
    requires c.lazy && c.lazyDefaults == LazyDefaults && !Given(CliOption(c, "download_rockfrontend"))
    ensures FetchProfileChoice(c, false, answers) == Some((false, answers))
  {
  }

  /** array_values(array_filter($profiles)): the truthy values, renumbered. */
  function FilterTruthy(ps: seq<string>): (r: seq<string>)
    ensures forall p :: p in r <==> p in ps && TruthyString(p)
    ensures |r| <= |ps|
    decreases |ps|
  {
    if ps == [] then []
    else
      var init := ps[..|ps| - 1];
      var last := ps[|ps| - 1];
      assert ps == init + [last];
      FilterTruthy(init) + (if TruthyString(last) then [last] else [])
  }

  /** The filter keeps the order: filtering a concatenation concatenates the filtered parts. */
  lemma {:induction false} FilterTruthyAppend(a: seq<string>, b: seq<string>)
    ensures FilterTruthy(a + b) == FilterTruthy(a) + FilterTruthy(b)
    decreases |b|
  {
    if b == [] {
      assert a + b == a;
    } else {
      var init, last := b[..|b| - 1], b[|b| - 1];
      var h := if TruthyString(last) then [last] else [];
      assert (a + b)[..|a + b| - 1] == a + init && (a + b)[|a + b| - 1] == last;
      assert FilterTruthy(a + b) == FilterTruthy(a + init) + h;
      assert FilterTruthy(b) == FilterTruthy(init) + h;
      FilterTruthyAppend(a, init);
    }
  }

  /** Only falsy values: nothing is left. */
  lemma {:induction false} FilterTruthyOfFalsy(ps: seq<string>)
    requires forall j :: 0 <= j < |ps| ==> !TruthyString(ps[j])
    ensures FilterTruthy(ps) == []
    decreases |ps|
  {
    if ps != [] {
      var init := ps[..|ps| - 1];
      assert forall j :: 0 <= j < |init| ==> init[j] == ps[j];
      FilterTruthyOfFalsy(init);
    }
  }

  /** The first profile after filtering is the first truthy value of the page. */
  lemma {:induction false} FirstKeptIsFirstTruthy(ps: seq<string>, i: nat)
    requires i < |ps| && TruthyString(ps[i])
    requires forall j :: 0 <= j < i ==> !TruthyString(ps[j])
    ensures FilterTruthy(ps) != [] && FilterTruthy(ps)[0] == ps[i]
  {
    var pre, rest := ps[..i], ps[i + 1..];
    assert ps == pre + ([ps[i]] + rest);
    FilterTruthyOfFalsy(pre);
    assert FilterTruthy([ps[i]]) == [ps[i]] by { assert [ps[i]][..0] == []; }
    FilterTruthyAppend(pre, [ps[i]] + rest);
    FilterTruthyAppend([ps[i]], rest);
    assert FilterTruthy(ps) == [] + ([ps[i]] + FilterTruthy(rest));
  }

  /** trim(strtolower($p)): the form under which profile names are compared. */
  function Norm(s: string): string {
    Trim(ToLower(s))
  }

  /** The profile names under Norm, position by position. */
  function Norms(ps: seq<string>): seq<string> {
    seq(|ps|, i requires 0 <= i < |ps| => Norm(ps[i]))
  }

  /** The first index at or after i that holds key. */
  function FirstFrom(ks: seq<string>, key: string, i: nat): (r: Option<nat>)
    requires i <= |ks|
    ensures r.Some? ==> i <= r.value < |ks| && ks[r.value] == key && forall j :: i <= j < r.value ==> ks[j] != key
    ensures r.None? ==> forall j :: i <= j < |ks| ==> ks[j] != key
    decreases |ks| - i
  {
    if i == |ks| then None
    else if ks[i] == key then Some(i)
    else FirstFrom(ks, key, i + 1)
  }

  /** The first profile matching w under Norm. */
  function FirstNorm(ps: seq<string>, w: string): (r: Option<nat>)
    ensures r.Some? ==> r.value < |ps| && Norm(ps[r.value]) == Norm(w) &&
                        forall j :: 0 <= j < r.value ==> Norm(ps[j]) != Norm(w)
    ensures r.None? ==> forall j :: 0 <= j < |ps| ==> Norm(ps[j]) != Norm(w)
  {
    var r := FirstFrom(Norms(ps), Norm(w), 0);
    assert forall j :: 0 <= j < |ps| ==> Norms(ps)[j] == Norm(ps[j]);
    r
  }

  /** The lazyDefaults profile as stepProfile reads it. */
  function TableProfile(c: Config): string {
    if "profile" in c.lazyDefaults then AsString(c.lazyDefaults["profile"]) else ""
  }

  /** $defaultProfile before the index search: the CLI profile, else the table's profile as listed, else the first. */
  function DefaultProfile(profiles: seq<string>, cli: Value, table: string): (r: string)
    requires |profiles| > 0
    ensures Given(cli) ==> r == AsString(cli)
    ensures !Given(cli) && FirstNorm(profiles, table).Some? ==> r == profiles[FirstNorm(profiles, table).value]
    ensures !Given(cli) && FirstNorm(profiles, table).None? ==> r == profiles[0]
  {
    if Given(cli) then AsString(cli)
    else
      match FirstNorm(profiles, table)
      case Some(i) => profiles[i]
      case None => profiles[0]
  }

  /** $defaultIndex: the first profile matching $defaultProfile under Norm, else 0. */
  function DefaultIndex(profiles: seq<string>, cli: Value, table: string): (r: nat)
    requires |profiles| > 0
    ensures r < |profiles|
  {
    match FirstNorm(profiles, DefaultProfile(profiles, cli, table))
    case Some(i) => i
    case None => 0
  }

  /** Without a CLI profile and without a listed table profile, the first profile is the default. */
  lemma NoMatchDefaultsToFirst(profiles: seq<string>, cli: Value, table: string)
    requires |profiles| > 0 && !Given(cli) && FirstNorm(profiles, table).None?
    ensures DefaultIndex(profiles, cli, table) == 0
  {
    assert Norm(profiles[0]) == Norm(DefaultProfile(profiles, cli, table));
  }

  /** A CLI profile written in another case or with spaces still selects the listed entry. */
  lemma CliProfileSelectsListed(profiles: seq<string>, cli: Value, table: string, j: nat)
    requires |profiles| > 0 && Given(cli)
    requires j < |profiles| && Norm(profiles[j]) == Norm(AsString(cli))
    ensures Norm(profiles[DefaultIndex(profiles, cli, table)]) == Norm(AsString(cli))
    ensures DefaultIndex(profiles, cli, table) <= j
  {
  }

  /** Without a CLI profile, the first profile matching the table's one is the default. */
  lemma TableProfileSelected(profiles: seq<string>, cli: Value, table: string, i: nat)
    requires |profiles| > 0 && !Given(cli)
    requires FirstNorm(profiles, table) == Some(i)
    ensures DefaultIndex(profiles, cli, table) == i
  {
    assert Norm(profiles[i]) == Norm(table);
  }

  /** An unlisted CLI profile leaves the first entry as the default. */
  lemma UnlistedCliProfileFallsBack(profiles: seq<string>, cli: Value, table: string)
    requires |profiles| > 0 && Given(cli)
    requires forall j :: 0 <= j < |profiles| ==> Norm(profiles[j]) != Norm(AsString(cli))
    ensures DefaultIndex(profiles, cli, table) == 0
  {
  }

  /** The first search of stepProfile: the first profile matching w under Norm. */
  method FindProfile(profiles: seq<string>, w: string) returns (k: Option<nat>)
    ensures k == FirstNorm(profiles, w)
  {
    ghost var ks := Norms(profiles);
    var key := Norm(w);
    var i := 0;
    while i < |profiles|
      invariant 0 <= i <= |profiles|
      invariant FirstFrom(ks, key, i) == FirstFrom(ks, key, 0)
    {
      if Norm(profiles[i]) == key {
        assert ks[i] == key;
        return Some(i);
      }
      assert ks[i] != key;
      i := i + 1;
    }
    return None;
  }

  /** The two searches of stepProfile that compute $defaultIndex. */
  method ProfileDefaultIndex(profiles: seq<string>, cli: Value, table: string) returns (idx: nat)
    requires |profiles| > 0
    ensures idx == DefaultIndex(profiles, cli, table)
  {
    var wanted := profiles[0];
    if Given(cli) {
      wanted := AsString(cli);
    } else {
      var k := FindProfile(profiles, table);
      if k.Some? {
        wanted := profiles[k.value];
      }
    }
    var j := FindProfile(profiles, wanted);
    idx := if j.Some? then j.value else 0;
  }

  /**
   * The profile stepProfile submits, and the answers left: an empty
   * profile list aborts; lazily getLazyValue('profile', first truthy
   * profile); otherwise the operator's choice among the truthy profiles,
   * offered with $defaultIndex as default.
   */
  function ProfilePick(c: Config, raw: seq<string>, answers: seq<Answer>): (r: Result<(Value, seq<Answer>), Halt>)
    ensures raw == [] ==> r == Err(NoProfiles)
    ensures c.lazy && raw != [] ==> r.Ok? && r.value.1 == answers
    ensures c.lazy && raw != [] ==>
              r.value.0 == LazyValue(c, "profile", if FilterTruthy(raw) == [] then Null else Str(FilterTruthy(raw)[0]))
    ensures !c.lazy && (forall i :: 0 <= i < |raw| ==> !TruthyString(raw[i])) ==> r == Err(NoProfiles)
    ensures r.Err? ==> r.error == NoProfiles || (r.error == InputExhausted && !c.lazy)
  {
    var profiles := FilterTruthy(raw);
    assert profiles != [] ==> profiles[0] in raw && TruthyString(profiles[0]);
    if raw == [] then Err(NoProfiles)
    else if c.lazy then Ok((LazyValue(c, "profile", if profiles == [] then Null else Str(profiles[0])), answers))
    else if profiles == [] then Err(NoProfiles)
    else
      var idx := DefaultIndex(profiles, CliOption(c, "profile"), TableProfile(c));
      match Choose(answers, profiles, NatToString(idx))
      case None => Err(InputExhausted)
      case Some((p, rest)) => Ok((Str(p), rest))
  }

  /** The second half of stepProfile: read the options, then take the lazy value or ask. */
  method SelectProfile(c: Config, raw: seq<string>, answers: seq<Answer>) returns (r: Result<(Value, seq<Answer>), Halt>)
    ensures r == ProfilePick(c, raw, answers)
  {
    if raw == [] {
      return Err(NoProfiles);
    }
    var profiles := FilterTruthy(raw);
    if c.lazy {
      return Ok((LazyValue(c, "profile", if profiles == [] then Null else Str(profiles[0])), answers));
    }
    if profiles == [] {
      return Err(NoProfiles);
    }
    var idx := ProfileDefaultIndex(profiles, CliOption(c, "profile"), TableProfile(c));
    var ch := Choose(answers, profiles, NatToString(idx));
    if ch.None? {
      return Err(InputExhausted);
    }
    return Ok((Str(ch.value.0), ch.value.1));
  }

  /** The operator can only pick a listed profile, never an empty or "0" one. */
  lemma InteractivePickIsListed(c: Config, raw: seq<string>, answers: seq<Answer>)
    requires !c.lazy && ProfilePick(c, raw, answers).Ok?
    ensures var p := ProfilePick(c, raw, answers).value.0;
            p.Str? && p.s in raw && TruthyString(p.s)
  {
  }

  /** Pressing Enter at the profile prompt installs the default profile (unless a profile is itself named by that index). */
  lemma EnterPicksDefaultProfile(c: Config, raw: seq<string>, rest: seq<Answer>)
    requires !c.lazy && |FilterTruthy(raw)| > 0
    requires NatToString(DefaultIndex(FilterTruthy(raw), CliOption(c, "profile"), TableProfile(c))) !in FilterTruthy(raw)
    ensures var profiles := FilterTruthy(raw);
            ProfilePick(c, raw, [Accept] + rest) ==
            Ok((Str(profiles[DefaultIndex(profiles, CliOption(c, "profile"), TableProfile(c))]), rest))
  {
    var profiles := FilterTruthy(raw);
    var idx := DefaultIndex(profiles, CliOption(c, "profile"), TableProfile(c));
    var s := NatToString(idx);
    NatToStringValue(idx);
    assert IsIndexOf(s, |profiles|);
    assert ChoiceOf(s, profiles) == Some(profiles[idx]);
    assert ([Accept] + rest)[1..] == rest;
  }

  // ----- stepCompatibility -----

  /** strpos($outer, 'fa-check') is falsy: absent, or at position 0. */
  predicate IsErrorRow(outer: string) {
    StrPos(outer, "fa-check").None? || StrPos(outer, "fa-check") == Some(0)
  }

  /** The compatibility rows counted as errors, in order. */
  function ErrorRows(rows: seq<string>): (r: seq<string>)
    ensures forall x :: x in r <==> x in rows && IsErrorRow(x)
    ensures |r| <= |rows|
    decreases |rows|
  {
    if rows == [] then []
    else
      var init := rows[..|rows| - 1];
      var last := rows[|rows| - 1];
      assert rows == init + [last];
      ErrorRows(init) + (if IsErrorRow(last) then [last] else [])
  }

  /** The loop of stepCompatibility that counts $errors. */
  method CountErrors(rows: seq<string>) returns (n: nat)
    ensures n == |ErrorRows(rows)|
  {
    n := 0;
    var i := 0;
    while i < |rows|
      invariant 0 <= i <= |rows|
      invariant n == |ErrorRows(rows[..i])|
    {
      assert rows[..i + 1][..i] == rows[..i];
      if StrPos(rows[i], "fa-check").None? || StrPos(rows[i], "fa-check") == Some(0) {
        n := n + 1;
      }
      i := i + 1;
    }
    assert rows[..i] == rows;
  }

  /** The check passes exactly when every row shows fa-check after its first character. */
  lemma NoErrorsIffAllChecked(rows: seq<string>)
    ensures |ErrorRows(rows)| == 0 <==>
            forall i :: 0 <= i < |rows| ==> StrPos(rows[i], "fa-check").Some? && StrPos(rows[i], "fa-check").value > 0
  {
    if |ErrorRows(rows)| != 0 {
      assert ErrorRows(rows)[0] in ErrorRows(rows);
    }
    if exists i :: 0 <= i < |rows| && !(StrPos(rows[i], "fa-check").Some? && StrPos(rows[i], "fa-check").value > 0) {
      var i :| 0 <= i < |rows| && !(StrPos(rows[i], "fa-check").Some? && StrPos(rows[i], "fa-check").value > 0);
      assert rows[i] in ErrorRows(rows);
    }
  }

  /** Because strpos returns 0 there, a row that starts with the icon class counts as an error. */
  lemma LeadingIconCountsAsError()
    ensures |ErrorRows(["fa-check"])| == 1
  {
    assert OccursAt("fa-check", "fa-check", 0) by { assert "fa-check"[0..8] == "fa-check"; }
    assert IsErrorRow("fa-check");
  }

  /** What stepCompatibility does after counting. */
  datatype CompatAction = Recheck | Proceed | Abort | Advance

  /**
   * The decision, with the answers left: no errors advances; errors in
   * lazy mode check again; otherwise "Check again?" (default yes), then
   * "Continue Installation?" (default no). None when a prompt finds no answer.
   */
  function CompatDecision(errors: nat, lazy: bool, answers: seq<Answer>): (r: Option<(CompatAction, seq<Answer>)>)
    ensures errors == 0 ==> r == Some((Advance, answers))
    ensures r.Some? && r.value.0 == Advance ==> errors == 0
    ensures r.Some? && (r.value.0 == Proceed || r.value.0 == Abort) ==> !lazy && |answers| >= 2 && r.value.1 == answers[2..]
    ensures r.None? ==> errors > 0 && !lazy && |answers| <= 1
    ensures errors > 0 && !lazy && answers != [] ==> (r.Some? && r.value.0 == Recheck <==> ConfirmReply(answers[0], true))
    ensures errors > 0 && !lazy && answers != [] && ConfirmReply(answers[0], true) ==> r == Some((Recheck, answers[1..]))
    ensures errors > 0 && !lazy && |answers| >= 2 && !ConfirmReply(answers[0], true) ==>
              r == Some((if ConfirmReply(answers[1], false) then Proceed else Abort, answers[2..]))
  {
    if errors == 0 then Some((Advance, answers))
    else if lazy then Some((Recheck, answers))
    else if answers == [] then None
    else if ConfirmReply(answers[0], true) then Some((Recheck, answers[1..]))
    else if |answers| == 1 then None
    else if ConfirmReply(answers[1], false) then Some((Proceed, answers[2..]))
    else Some((Abort, answers[2..]))
  }

  /** Lazy mode never aborts and never prompts: with errors it only ever checks again. */
  lemma LazyCompatNeverAborts(errors: nat, answers: seq<Answer>)
    ensures CompatDecision(errors, true, answers) == Some((if errors == 0 then Advance else Recheck, answers))
  {
  }

  /** Aborting takes two refusals; pressing Enter twice declines to go on. */
  lemma AbortNeedsTwoRefusals(errors: nat, a: Answer, b: Answer, rest: seq<Answer>)
    requires errors > 0
    ensures CompatDecision(errors, false, [a, b] + rest).value.0 == Abort <==>
            !ConfirmReply(a, true) && !ConfirmReply(b, false)
    ensures CompatDecision(errors, false, [Typed("n"), Accept] + rest) == Some((Abort, rest))
  {
    assert ([a, b] + rest)[0] == a && ([a, b] + rest)[1] == b;
    assert ([Typed("n"), Accept] + rest)[2..] == rest;
  }

  // ----- the end of nextStep -----

  /**
   * Whether nextStep calls itself again after a step, with the answers
   * left: never after false; without a prompt when skipNextConfirm,
   * noConfirm or lazy mode; otherwise as "Continue to next step?" (default
   * yes) is answered. None when that prompt finds no answer.
   */
  function Continuation(next: Ret, skip: bool, noConfirm: bool, lazy: bool, answers: seq<Answer>): (r: Option<(bool, seq<Answer>)>)
    ensures r.None? <==> next.RetNull? && !skip && !noConfirm && !lazy && answers == []
    ensures r.Some? && r.value.0 ==> next.RetNull?
    ensures r.Some? ==> r.value.1 == answers || (answers != [] && r.value.1 == answers[1..])
    ensures next.RetNull? && (skip || noConfirm || lazy) ==> r == Some((true, answers))
    ensures next.RetNull? && !skip && !noConfirm && !lazy && answers != [] ==> r == Some((ConfirmReply(answers[0], true), answers[1..]))
  {
    if next == RetFalse then Some((false, answers))
    else if skip || noConfirm || lazy then Some((true, answers))
    else if answers == [] then None
    else Some((ConfirmReply(answers[0], true), answers[1..]))
  }

  /** A step that returns false ends the chain, whatever the flags. */
  lemma FalseEndsChain(skip: bool, noConfirm: bool, lazy: bool, answers: seq<Answer>)
    ensures Continuation(RetFalse, skip, noConfirm, lazy, answers) == Some((false, answers))
  {
  }

  /** The prompt is asked only when no flag waives it, and only one answer is consumed. */
  lemma PromptOnlyWhenNotWaived(skip: bool, noConfirm: bool, lazy: bool, answers: seq<Answer>)
    ensures var k := Continuation(RetNull, skip, noConfirm, lazy, answers);
            k.Some? && k.value.1 != answers ==> !skip && !noConfirm && !lazy && k.value.1 == answers[1..]
    ensures skip || noConfirm || lazy ==> Continuation(RetNull, skip, noConfirm, lazy, answers) == Some((true, answers))
  {
  }

  /** welcome, database and admin: the steps whose handler neither calls nextStep nor sets a flag. */
  predicate IsPlainStep(s: Step) {
    s == Welcome || s == Database || s == Admin
  }

  /**
   * What the handler of a plain step does on a page: the submission it
   * makes and the answers left, or why the process ends. stepWelcome
   * presses "Get Started"; stepDatabase and stepAdmin fill the form and
   * press "Continue".
   */
  function PlainStepEffect(s: Step, c: Config, page: PageView, answers: seq<Answer>): (r: Result<(Event, seq<Answer>), Halt>)
    requires IsPlainStep(s)
    ensures s == Welcome ==> r == Ok((Submit("Get Started", map[]), answers))
    ensures s != Welcome && page.form.None? ==> r == Err(FormMissing)
    ensures s != Welcome && r.Ok? ==> r.value.0.Submit? && r.value.0.button == "Continue"
  {
    if s == Welcome then Ok((Submit("Get Started", map[]), answers))
    else
      match FillSpec(c, c.lazyDefaults, page.form, answers)
      case Err(e) => Err(if e == NoForm then FormMissing else InputExhausted)
      case Ok(st) => Ok((Submit("Continue", st.values), st.rest))
  }

  /** The RockShell command pw:install. */
  class PwInstaller {
    const cfg: Config
    const env: Env
    const status: string -> int
    const server: seq<Event> -> PageView

    /** $this->host; "" while unset. */
    var host: string
    /** Whether the docroot holds an index.php; a ProcessWire download puts one there. */
    var indexPhpExists: bool
    var skipWelcome: bool
    var skipNextConfirm: bool
    var stepCount: nat
    /** Whether the site-rockfrontend directory exists. */
    var profileDirExists: bool
    var history: seq<Event>
    /** What the operator will still type. */
    var answers: seq<Answer>
    /** The steps run so far, in order. */
    ghost var handled: seq<Step>
    /** Every nextStep call so far, in order, with the state it started from. */
    ghost var calls: seq<Call>

    /** Every step run took one of the first StepLimit calls of nextStep. */
    ghost predicate Valid()
      reads this`handled, this`stepCount
    {
      |handled| <= Capped(stepCount)
    }

    constructor (cfg: Config, env: Env, status: string -> int, server: seq<Event> -> PageView,
                 indexPhpExists: bool, profileDirExists: bool, answers: seq<Answer>)
      ensures this.cfg == cfg && this.env == env && this.status == status && this.server == server
      ensures this.indexPhpExists == indexPhpExists && this.profileDirExists == profileDirExists
      ensures this.answers == answers
      ensures host == "" && !skipWelcome && !skipNextConfirm && stepCount == 0
      ensures history == [] && handled == [] && calls == []
      ensures Valid()
    {
      this.cfg := cfg;
      this.env := env;
      this.status := status;
      this.server := server;
      this.indexPhpExists := indexPhpExists;
      this.profileDirExists := profileDirExists;
      this.answers := answers;
      host := "";
      skipWelcome := false;
      skipNextConfirm := false;
      stepCount := 0;
      history := [];
      handled := [];
      calls := [];
    }

    /** The page the crawler sees now. */
    function Page(): PageView
      reads this`history
    {
      server(history)
    }

    /**
     * The end of nextStep after a plain step s, given the page, answers,
     * skipNextConfirm, history and files its handler started from: the
     * handler's submission comes first in the history; when no prompt
     * stops the process, the call goes on with a nested nextStep (which
     * raises stepCount above base and is entry callBase of calls, made as
     * nextStep() once the confirmation's answer is consumed) exactly when
     * Continuation says so, and otherwise returns null.
     */
    ghost predicate PlainStepChained(s: Step, noConfirm: bool, r: Outcome, page: PageView, before: seq<Answer>, skip: bool,
                                     prior: seq<Event>, indexPhp: bool, profileDir: bool, base: nat, callBase: nat)
      requires IsPlainStep(s)
      reads this`history, this`stepCount, this`calls, this`answers
    {
      match PlainStepEffect(s, cfg, page, before)
      case Err(w) => r == Halted(w) && stepCount == base && history == prior
      case Ok((e, left)) =>
        |history| > |prior| && history[|prior|] == e &&
        match Continuation(RetNull, skip, noConfirm, cfg.lazy, left)
        case None => r == Halted(InputExhausted) && stepCount == base
        case Some((go, rest)) =>
          (go <==> base < stepCount) &&
          (go ==> |calls| > callBase && calls[callBase] == Call(false, false, rest, skip, indexPhp, profileDir)) &&
          (!go ==> r == Returned(RetNull) && answers == rest && history == prior + [e])
    }

    /**
     * What one counted nextStep call below the ceiling does, from the
     * state it started with. A reload records its GET first unless it halts.
     * Without a reload: a page without the installer banner halts (at
     * once when index.php exists) or returns false, which is what line
     * 104 makes of getStep's nested result; unmatched headings give null,
     * or false when there are none; a matched step is recorded as handled
     * and, for a plain step, chained as PlainStepChained states.
     */
    ghost predicate StepRan(reload: bool, noConfirm: bool, r: Outcome, e: Entry)
      reads this`history, this`handled, this`stepCount, this`calls, this`answers
    {
      (reload ==> r.Halted? || (|history| > |e.history| && history[|e.history|].Get?)) &&
      (!reload && e.page.h1 != InstallerBanner ==>
         (r.Halted? || r == Returned(RetFalse)) && (e.indexPhp ==> r == Halted(IndexPhpFound))) &&
      (!reload && e.page.h1 == InstallerBanner ==>
         match ClassifyHeadings(e.page.h2s)
         case Unknown(hs) => r == Returned(if hs == [] then RetFalse else RetNull) &&
                             handled == e.handled && history == e.history && answers == e.answers
         case Known(s) => |handled| > |e.handled| && handled[|e.handled|] == s &&
                          (IsPlainStep(s) ==>
                             PlainStepChained(s, noConfirm, r, e.page, e.answers, e.skip, e.history, e.indexPhp, e.profileDir,
                                              e.base, e.callBase)))
    }

    /** host($site): settles the host, caches it and probes its candidate URLs. */
    method Host(site: string) returns (r: Result<string, Halt>)
      modifies this`host, this`answers
      ensures var ch := ChosenHost(old(host), cfg, env, old(answers));
              if ch.None? then r == Err(InputExhausted) && host == old(host) && answers == old(answers)
              else host == ch.value.0 && answers == ch.value.1 &&
                   r == match HostUrl(ch.value.0, site, env, status)
                        case None => Err(HostUnreachable)
                        case Some(u) => Ok(u)
    {
      var ch := ChosenHost(host, cfg, env, answers);
      if ch.None? {
        return Err(InputExhausted);
      }
      host, answers := ch.value.0, ch.value.1;
      var u := FirstReachable(CandidateUrls(host, env), status);
      if u.None? {
        return Err(HostUnreachable);
      }
      return Ok(u.value + "/" + LTrimSlash(site));
    }

    /** $this->browser->request('GET', $this->host('install.php')). */
    method Reload() returns (halt: Option<Halt>)
      modifies this`host, this`answers, this`history
      ensures halt.None? ==> exists url :: history == old(history) + [Get(url)]
      ensures halt.Some? ==> history == old(history)
    {
      var url := Host("install.php");
      if url.Err? {
        return Some(url.error);
      }
      history := history + [Get(url.value)];
      return None;
    }

    /** stepWelcome. */
    method StepWelcome()
      modifies this`history
      ensures history == old(history) + [Submit("Get Started", map[])]
    {
      history := history + [Submit("Get Started", map[])];
    }

    /** stepDatabase and stepAdmin: fill the form and submit it with "Continue". */
    method StepForm() returns (r: Outcome)
      modifies this`history, this`answers
      ensures match FillSpec(cfg, cfg.lazyDefaults, old(Page()).form, old(answers))
              case Err(e) => r == Halted(if e == NoForm then FormMissing else InputExhausted) &&
                             history == old(history) && answers == old(answers)
              case Ok(st) => r == Returned(RetNull) && answers == st.rest &&
                             history == old(history) + [Submit("Continue", st.values)]
    {
      var filled := FillForm(cfg, cfg.lazyDefaults, Page().form, answers);
      if filled.Err? {
        return Halted(if filled.error == NoForm then FormMissing else InputExhausted);
      }
      answers := filled.value.rest;
      history := history + [Submit("Continue", filled.value.values)];
      return Returned(RetNull);
    }

    /** getStep. */
    method GetStep() returns (g: Got)
      requires Valid()
      modifies this
      ensures Valid() && old(stepCount) <= stepCount && old(handled) <= handled && (old(skipWelcome) ==> skipWelcome) &&
              (old(profileDirExists) ==> profileDirExists) && old(history) <= history && (old(indexPhpExists) ==> indexPhpExists) &&
              old(calls) <= calls
      ensures old(Page()).h1 == InstallerBanner ==>
                unchanged(this) &&
                g == match ClassifyHeadings(old(Page()).h2s)
                     case Known(s) => Found(s)
                     case Unknown(hs) => Headings(hs)
      ensures old(Page()).h1 != InstallerBanner && old(indexPhpExists) ==> g == Stop(IndexPhpFound) && unchanged(this)
      ensures old(Page()).h1 != InstallerBanner ==> g.Stop? || g.Nested?
      ensures old(Page()).h1 != InstallerBanner && !old(indexPhpExists) ==>
                match DownloadChoice(cfg, old(answers))
                case None => g == Stop(InputExhausted) && history == old(history) && stepCount == old(stepCount)
                case Some((None, rest)) => g == Stop(DownloadDeclined) && answers == rest && history == old(history) &&
                                           stepCount == old(stepCount)
                case Some((Some(v), rest)) => |history| > |old(history)| && history[|old(history)|] == DownloadProcessWire(v) &&
                                              indexPhpExists && old(stepCount) < stepCount && |calls| > |old(calls)| &&
                                              calls[|old(calls)|] == Call(true, false, rest, old(skipNextConfirm), true,
                                                                          old(profileDirExists))
      decreases Remaining(stepCount), 1
    {
      var page := Page();
      if page.h1 != InstallerBanner {
        if indexPhpExists {
          return Stop(IndexPhpFound);
        }
        var d := DownloadChoice(cfg, answers);
        if d.None? {
          return Stop(InputExhausted);
        }
        answers := d.value.1;
        if d.value.0.None? {
          return Stop(DownloadDeclined);
        }
        history := history + [DownloadProcessWire(d.value.0.value)];
        indexPhpExists := true;
        var o := NextStep(true, false);
        if o.Halted? {
          return Stop(o.why);
        }
        return Nested(o.ret);
      }
      match ClassifyHeadings(page.h2s)
      case Known(s) => return Found(s);
      case Unknown(hs) => return Headings(hs);
    }

    /** nextStep($reload, $noConfirm). */
    method NextStep(reload: bool, noConfirm: bool) returns (r: Outcome)
      requires Valid()
      modifies this
      ensures Valid() && old(stepCount) < stepCount && old(handled) <= handled && (old(skipWelcome) ==> skipWelcome) &&
              (old(profileDirExists) ==> profileDirExists) && old(history) <= history && (old(indexPhpExists) ==> indexPhpExists) &&
              old(calls) <= calls
      ensures old(stepCount) >= StepLimit ==>
                r == Returned(RetNull) && stepCount == old(stepCount) + 1 && handled == old(handled) &&
                history == old(history) && answers == old(answers) && host == old(host)
      ensures |calls| > |old(calls)| &&
              calls[|old(calls)|] == Call(reload, noConfirm, old(answers), old(skipNextConfirm), old(indexPhpExists), old(profileDirExists))
      ensures old(stepCount) < StepLimit ==>
                StepRan(reload, noConfirm, r, Entry(old(Page()), old(answers), old(skipNextConfirm), old(history), old(handled),
                                                    old(indexPhpExists), old(profileDirExists), old(stepCount) + 1, |old(calls)| + 1))
      decreases Remaining(stepCount), 0
    {
      ghost var entry := Entry(Page(), answers, skipNextConfirm, history, handled, indexPhpExists, profileDirExists,
                               stepCount + 1, |calls| + 1);
      calls := calls + [Call(reload, noConfirm, answers, skipNextConfirm, indexPhpExists, profileDirExists)];
      stepCount := stepCount + 1;
      if stepCount > StepLimit {
        return Returned(RetNull);
      }
      r := LoadAndRun(reload, noConfirm, entry);
    }

    /** The body of nextStep below the hard limit: the optional reload, then the current step. */
    method LoadAndRun(reload: bool, noConfirm: bool, ghost entry: Entry) returns (r: Outcome)
      requires |handled| < stepCount <= StepLimit
      requires entry == Entry(Page(), answers, skipNextConfirm, history, handled, indexPhpExists, profileDirExists,
                              stepCount, |calls|)
      modifies this
      ensures Valid() && old(stepCount) <= stepCount && old(handled) <= handled && (old(skipWelcome) ==> skipWelcome) &&
              (old(profileDirExists) ==> profileDirExists) && old(history) <= history && (old(indexPhpExists) ==> indexPhpExists) &&
              old(calls) <= calls
      ensures StepRan(reload, noConfirm, r, entry)
      decreases Remaining(stepCount), 7
    {
      if reload {
        var halt := Reload();
        if halt.Some? {
          return Halted(halt.value);
        }
        ghost var loaded := history;
        r := RunCurrentStep(noConfirm);
        assert loaded <= history;
        return;
      }
      r := RunCurrentStep(noConfirm);
    }

    /**
     * The rest of nextStep, once the call is counted and the page loaded:
     * classify the page, then run its step.
     */
    method RunCurrentStep(noConfirm: bool) returns (r: Outcome)
      requires |handled| < stepCount <= StepLimit
      modifies this
      ensures Valid() && old(stepCount) <= stepCount && old(handled) <= handled && (old(skipWelcome) ==> skipWelcome) &&
              (old(profileDirExists) ==> profileDirExists) && old(history) <= history && (old(indexPhpExists) ==> indexPhpExists) &&
              old(calls) <= calls
      ensures old(Page()).h1 != InstallerBanner ==>
                (r.Halted? || r == Returned(RetFalse)) && (old(indexPhpExists) ==> r == Halted(IndexPhpFound))
      ensures old(Page()).h1 == InstallerBanner ==>
                match ClassifyHeadings(old(Page()).h2s)
                case Unknown(hs) => r == Returned(if hs == [] then RetFalse else RetNull) &&
                                    handled == old(handled) && history == old(history) && answers == old(answers)
                case Known(s) => |handled| > |old(handled)| && handled[|old(handled)|] == s &&
                                 (IsPlainStep(s) ==> PlainStepChained(s, noConfirm, r, old(Page()), old(answers), old(skipNextConfirm), old(history),
                                                                   old(indexPhpExists), old(profileDirExists), old(stepCount), |old(calls)|))
      decreases Remaining(stepCount), 6
    {
      var got := GetStep();
      if got.Stop? {
        return Halted(got.why);
      } else if got.Nested? {
        return Returned(RetFalse);
      } else if got.Headings? {
        return Returned(if got.hs == [] then RetFalse else RetNull);
      }
      r := RunAndContinue(got.step, noConfirm);
    }

    /**
     * The end of nextStep: run the handler of the step found, then decide
     * whether to go on.
     */
    method RunAndContinue(step: Step, noConfirm: bool) returns (r: Outcome)
      requires |handled| < stepCount <= StepLimit
      modifies this
      ensures Valid() && old(stepCount) <= stepCount && old(handled) <= handled && (old(skipWelcome) ==> skipWelcome) &&
              (old(profileDirExists) ==> profileDirExists) && old(history) <= history && (old(indexPhpExists) ==> indexPhpExists) &&
              old(calls) <= calls
      ensures |handled| > |old(handled)| && handled[|old(handled)|] == step
      ensures IsPlainStep(step) ==> PlainStepChained(step, noConfirm, r, old(Page()), old(answers), old(skipNextConfirm), old(history),
                                                            old(indexPhpExists), old(profileDirExists), old(stepCount), |old(calls)|)
      decreases Remaining(stepCount), 5
    {
      ghost var before := handled;
      handled := handled + [step];
      var next := RunStep(step);
      if next.Halted? {
        return next;
      }
      ghost var mid := handled;
      r := GoOn(next.ret, noConfirm);
      assert before + [step] <= mid <= handled;
    }

    /** The last lines of nextStep: after the step returned ret, go on when Continuation says so. */
    method GoOn(ret: Ret, noConfirm: bool) returns (r: Outcome)
      requires Valid()
      modifies this
      ensures Valid() && old(stepCount) <= stepCount && old(handled) <= handled && (old(skipWelcome) ==> skipWelcome) &&
              (old(profileDirExists) ==> profileDirExists) && old(history) <= history && (old(indexPhpExists) ==> indexPhpExists) &&
              old(calls) <= calls
      ensures match Continuation(ret, old(skipNextConfirm), noConfirm, cfg.lazy, old(answers))
              case None => r == Halted(InputExhausted) && stepCount == old(stepCount) && history == old(history) &&
                           calls == old(calls)
              case Some((go, rest)) =>
                (go <==> old(stepCount) < stepCount) &&
                (go ==> |calls| > |old(calls)| &&
                        calls[|old(calls)|] == Call(false, false, rest, old(skipNextConfirm), old(indexPhpExists), old(profileDirExists))) &&
                (!go ==> r == Returned(RetNull) && answers == rest && history == old(history) && handled == old(handled) &&
                         calls == old(calls))
      decreases Remaining(stepCount), 4
    {
      var k := Continuation(ret, skipNextConfirm, noConfirm, cfg.lazy, answers);
      if k.None? {
        return Halted(InputExhausted);
      }
      answers := k.value.1;
      if !k.value.0 {
        return Returned(RetNull);
      }
      r := NextStep(false, false);
    }

    /** $this->$method(): the handler of the step. */
    method RunStep(step: Step) returns (next: Outcome)
      requires Valid()
      modifies this
      ensures Valid() && old(stepCount) <= stepCount && old(handled) <= handled && (old(skipWelcome) ==> skipWelcome) &&
              (old(profileDirExists) ==> profileDirExists) && old(history) <= history && (old(indexPhpExists) ==> indexPhpExists) &&
              old(calls) <= calls
      ensures step == Finish ==> next == Halted(Finished)
      ensures IsPlainStep(step) ==>
                handled == old(handled) && stepCount == old(stepCount) && skipNextConfirm == old(skipNextConfirm) &&
                calls == old(calls) && indexPhpExists == old(indexPhpExists) && profileDirExists == old(profileDirExists) &&
                match PlainStepEffect(step, cfg, old(Page()), old(answers))
                case Err(w) => next == Halted(w) && history == old(history) && answers == old(answers)
                case Ok((e, rest)) => next == Returned(RetNull) && history == old(history) + [e] && answers == rest
      decreases Remaining(stepCount), 3
    {
      match step {
        case Welcome =>
          StepWelcome();
          next := Returned(RetNull);
        case Compatibility =>
          next := StepCompatibility();
        case Profile =>
          next := StepProfile();
        case Database =>
          next := StepForm();
        case Admin =>
          next := StepForm();
        case Finish =>
          next := Halted(Finished);
      }
    }

    /** stepProfile. */
    method StepProfile() returns (r: Outcome)
      requires Valid()
      modifies this
      ensures Valid() && old(stepCount) <= stepCount && old(handled) <= handled && (old(skipWelcome) ==> skipWelcome) &&
              (old(profileDirExists) ==> profileDirExists) && old(history) <= history && (old(indexPhpExists) ==> indexPhpExists) &&
              old(calls) <= calls
      ensures var f := FetchProfileChoice(cfg, old(profileDirExists), old(answers));
              f.None? ==> r == Halted(InputExhausted)
      ensures var f := FetchProfileChoice(cfg, old(profileDirExists), old(answers));
              f.Some? && f.value.0 ==> profileDirExists && (r.Returned? ==> r.ret == RetNull) &&
                                       |history| > |old(history)| && history[|old(history)|] == FetchRockFrontend &&
                                       old(stepCount) < stepCount && |calls| > |old(calls)| &&
                                       calls[|old(calls)|] == Call(true, true, f.value.1, old(skipNextConfirm), old(indexPhpExists), true)
      ensures var f := FetchProfileChoice(cfg, old(profileDirExists), old(answers));
              f.Some? && !f.value.0 ==>
                handled == old(handled) && stepCount == old(stepCount) &&
                match ProfilePick(cfg, old(Page()).profiles, f.value.1)
                case Err(w) => r == Halted(w)
                case Ok((p, rest)) => r == Returned(RetNull) && answers == rest &&
                                      history == old(history) + [Submit("Continue", map["profile" := p])]
      decreases Remaining(stepCount), 2
    {
      var f := FetchProfileChoice(cfg, profileDirExists, answers);
      if f.None? {
        return Halted(InputExhausted);
      }
      answers := f.value.1;
      if f.value.0 {
        r := FetchAndReload();
        return;
      }
      var pick := SelectProfile(cfg, Page().profiles, answers);
      if pick.Err? {
        return Halted(pick.error);
      }
      answers := pick.value.1;
      history := history + [Submit("Continue", map["profile" := pick.value.0])];
      return Returned(RetNull);
    }

    /** The fetch branch of stepProfile: wget and unzip the profile, then nextStep(true, true). */
    method FetchAndReload() returns (r: Outcome)
      requires Valid()
      modifies this
      ensures Valid() && old(stepCount) <= stepCount && old(handled) <= handled && (old(skipWelcome) ==> skipWelcome) &&
              (old(profileDirExists) ==> profileDirExists) && old(history) <= history && (old(indexPhpExists) ==> indexPhpExists) &&
              old(calls) <= calls
      ensures profileDirExists && (r.Returned? ==> r.ret == RetNull) &&
              |history| > |old(history)| && history[|old(history)|] == FetchRockFrontend && old(stepCount) < stepCount
      ensures |calls| > |old(calls)| &&
              calls[|old(calls)|] == Call(true, true, old(answers), old(skipNextConfirm), old(indexPhpExists), true)
      decreases Remaining(stepCount), 1
    {
      history := history + [FetchRockFrontend];
      profileDirExists := true;
      var o := NextStep(true, true);
      if o.Halted? {
        return o;
      }
      return Returned(RetNull);
    }

    /** stepCompatibility. */
    method StepCompatibility() returns (r: Outcome)
      requires Valid()
      modifies this
      ensures Valid() && old(stepCount) <= stepCount && old(handled) <= handled && (old(skipWelcome) ==> skipWelcome) &&
              (old(profileDirExists) ==> profileDirExists) && old(history) <= history && (old(indexPhpExists) ==> indexPhpExists) &&
              old(calls) <= calls
      ensures var d := CompatDecision(|ErrorRows(old(Page()).compatRows)|, cfg.lazy, old(answers));
              (d.None? ==> r == Halted(InputExhausted)) &&
              (d.Some? && d.value.0 == Recheck ==>
                 skipWelcome && old(stepCount) < stepCount &&
                 |calls| > |old(calls)| &&
                 calls[|old(calls)|] == Call(true, false, d.value.1, true, old(indexPhpExists), old(profileDirExists)) &&
                 (old(stepCount) < StepLimit ==> r.Halted? || (|history| > |old(history)| && history[|old(history)|].Get?))) &&
              (d.Some? && d.value.0 == Abort ==> r == Halted(CompatAborted)) &&
              (d.Some? && (d.value.0 == Proceed || d.value.0 == Advance) ==>
                 r == Returned(RetNull) && answers == d.value.1 && (skipNextConfirm <==> d.value.0 == Proceed) &&
                 history == old(history) + [Submit("Continue to Next Step", map[])] &&
                 handled == old(handled) && stepCount == old(stepCount))
      decreases Remaining(stepCount), 1
    {
      var errors := CountErrors(Page().compatRows);
      var d := CompatDecision(errors, cfg.lazy, answers);
      if d.None? {
        return Halted(InputExhausted);
      }
      answers := d.value.1;
      var action := d.value.0;
      if action == Recheck {
        skipWelcome := true;
        skipNextConfirm := true;
        r := NextStep(true, false);
      } else if action == Abort {
        r := Halted(CompatAborted);
      } else {
        skipNextConfirm := action == Proceed;
        history := history + [Submit("Continue to Next Step", map[])];
        r := Returned(RetNull);
      }
    }

    /**
     * handle($wrongShell, $installed): refuses to run outside the DDEV web
     * container when DDEV is in use, stops when ProcessWire is already
     * installed, and otherwise starts the chain with a reload.
     */
    method Handle(wrongShell: bool, installed: bool) returns (e: Exit)
      requires Valid()
      modifies this
      ensures Valid() && |handled| <= StepLimit
      ensures wrongShell ==> e == Failure && unchanged(this)
      ensures !wrongShell && installed ==> e == Success && unchanged(this)
      ensures !wrongShell && !installed ==>
                old(stepCount) < stepCount && e != Failure &&
                |calls| > |old(calls)| &&
                calls[|old(calls)|] == Call(true, false, old(answers), old(skipNextConfirm), old(indexPhpExists), old(profileDirExists)) &&
                (old(stepCount) < StepLimit ==> e.Stopped? || (|history| > |old(history)| && history[|old(history)|].Get?))
    {
      if wrongShell {
        return Failure;
      }
      if installed {
        return Success;
      }
      var o := NextStep(true, false);
      if o.Halted? {
        return Stopped(o.why);
      }
      return Success;
    }
  }

  /**
   * The state a nextStep call starts from, once counted: the page, the
   * answers left, skipNextConfirm, the history, the steps handled, whether
   * index.php and the site-rockfrontend directory exist, the new stepCount
   * and the position of the next nextStep call in the record of calls.
   */
  datatype Entry = Entry(page: PageView, answers: seq<Answer>, skip: bool, history: seq<Event>, handled: seq<Step>,
                         indexPhp: bool, profileDir: bool, base: nat, callBase: nat)

  /**
   * One nextStep call as it was made: its reload and noConfirm arguments,
   * and the answers left, skipNextConfirm and whether index.php and the
   * site-rockfrontend directory exist when it starts.
   */
  datatype Call = Call(reload: bool, noConfirm: bool, answers: seq<Answer>, skip: bool, indexPhp: bool, profileDir: bool)

  /** getStep's result: a step, the unmatched headings, or the result of the nested nextStep after a download. */
  datatype Got = Found(step: Step) | Headings(hs: seq<string>) | Nested(ret: Ret) | Stop(why: Halt)
}
