/**
 * The timezone helpers: the lower-cased "city (region)" labels built from
 * the options of the installer's timezone select, the lookups fillForm
 * performs on them, and findTimezone.
 */
module Timezones {
  import opened Wrappers
  import opened Strings
  import opened Values

  /** An option of the timezone select: its value attribute and its text, a PHP timezone name. */
  datatype TzOption = TzOption(key: string, text: string)

  /** A PHP array with string keys, in insertion order. */
  type Assoc = seq<(string, string)>

  function Keys(a: Assoc): (r: seq<string>)
    ensures |r| == |a|
    ensures forall i :: 0 <= i < |a| ==> r[i] == a[i].0
  {
    if a == [] then [] else [a[0].0] + Keys(a[1..])
  }

  /** $a[$k]: the value stored under a key. */
  function Get(a: Assoc, k: string): Option<string> {
    if a == [] then None else if a[0].0 == k then Some(a[0].1) else Get(a[1..], k)
  }

  /** $a[$k] = $v: an existing key keeps its position, a new one goes last. */
  function Put(a: Assoc, k: string, v: string): Assoc {
    if a == [] then [(k, v)]
    else if a[0].0 == k then [(k, v)] + a[1..]
    else [a[0]] + Put(a[1..], k, v)
  }

  /** Put behaves as an ordered map update. */
  lemma {:induction false} PutIsUpdate(a: Assoc, k: string, v: string, k': string)
    ensures Get(Put(a, k, v), k') == if k' == k then Some(v) else Get(a, k')
    ensures Keys(Put(a, k, v)) == if k in Keys(a) then Keys(a) else Keys(a) + [k]
  {
    if a != [] {
      if a[0].0 == k {
        assert Put(a, k, v)[1..] == a[1..];
        assert Keys(a) == [k] + Keys(a[1..]);
      } else {
        PutIsUpdate(a[1..], k, v, k');
        assert Put(a, k, v)[1..] == Put(a[1..], k, v);
        assert Keys(a) == [a[0].0] + Keys(a[1..]);
      }
    }
  }

  /** explode("/", $phpName, 2) turned into "city (region)"; a name without "/" is its own label. */
  function TzLabel(name: string): string {
    match StrPos(name, "/")
    case None => name
    case Some(i) => name[i + 1..] + " (" + name[..i] + ")"
  }

  lemma SlashAt(s: string, j: nat)
    ensures OccursAt(s, "/", j) <==> j < |s| && s[j] == '/'
  {
    if j < |s| && s[j] == '/' {
      assert s[j..j + 1] == [s[j]];
    }
  }

  /** Region/City is shown as "City (Region)"; anything after the first "/" stays in the city part. */
  lemma RegionCityLabel(region: string, city: string)
    requires '/' !in region
    ensures TzLabel(region + "/" + city) == city + " (" + region + ")"
  {
    var name := region + "/" + city;
    SlashAt(name, |region|);
    forall j: nat | j < |region| ensures !OccursAt(name, "/", j) {
      SlashAt(name, j);
      assert name[j] == region[j];
    }
    assert StrPos(name, "/") == Some(|region|);
    assert name[|region| + 1..] == city;
    assert name[..|region|] == region;
  }

  /** A name without "/" (such as "UTC") is its own label. */
  lemma PlainNameLabel(name: string)
    requires '/' !in name
    ensures TzLabel(name) == name
  {
    if StrPos(name, "/").Some? {
      var i := StrPos(name, "/").value;
      SlashAt(name, i);
    }
  }

  /** $options: option value => strtolower(label), built in document order. */
  function Labels(opts: seq<TzOption>): Assoc
    decreases |opts|
  {
    if opts == [] then []
    else
      var o := opts[|opts| - 1];
      Put(Labels(opts[..|opts| - 1]), o.key, ToLower(TzLabel(o.text)))
  }

  /** $phpTimezones: option value => PHP timezone name. */
  function Names(opts: seq<TzOption>): Assoc
    decreases |opts|
  {
    if opts == [] then []
    else
      var o := opts[|opts| - 1];
      Put(Names(opts[..|opts| - 1]), o.key, o.text)
  }

  /** The first key whose value, lower-cased, equals the lower-cased wanted text. */
  function KeyOfName(names: Assoc, wanted: string): (r: Option<string>)
    ensures r.Some? ==> exists i :: 0 <= i < |names| && names[i].0 == r.value &&
                                    ToLower(names[i].1) == ToLower(wanted) &&
                                    forall j :: 0 <= j < i ==> ToLower(names[j].1) != ToLower(wanted)
    ensures r.None? ==> forall i :: 0 <= i < |names| ==> ToLower(names[i].1) != ToLower(wanted)
    decreases |names|
  {
    if names == [] then None
    else if ToLower(names[0].1) == ToLower(wanted) then Some(names[0].0)
    else
      var r := KeyOfName(names[1..], wanted);
      assert forall i :: 1 <= i < |names| ==> names[i] == names[1..][i - 1];
      r
  }

  /** array_search($chosen, $options): the first key whose label equals the text. */
  function KeyOfLabel(labels: Assoc, chosen: string): (r: Option<string>)
    ensures r.Some? ==> exists i :: 0 <= i < |labels| && labels[i] == (r.value, chosen) &&
                                    forall j :: 0 <= j < i ==> labels[j].1 != chosen
    ensures r.None? ==> forall i :: 0 <= i < |labels| ==> labels[i].1 != chosen
    decreases |labels|
  {
    if labels == [] then None
    else if labels[0].1 == chosen then Some(labels[0].0)
    else
      var r := KeyOfLabel(labels[1..], chosen);
      assert forall i :: 1 <= i < |labels| ==> labels[i] == labels[1..][i - 1];
      r
  }

  /** (int)$s == 0: the leading integer of the string, after white space and a sign, is zero or absent. */
  predicate IntCastIsZero(s: string) {
    var t := SkipSpace(s);
    var u := if t != [] && (t[0] == '+' || t[0] == '-') then t[1..] else t;
    LeadingZeros(u)
  }

  function SkipSpace(s: string): string {
    if s != [] && (s[0] == ' ' || s[0] == '\t' || s[0] == '\n' || s[0] == '\r' || s[0] == '\U{B}' || s[0] == '\U{C}')
    then SkipSpace(s[1..]) else s
  }

  /** Every leading digit is a zero. */
  predicate LeadingZeros(u: string) {
    u == [] || !('0' <= u[0] <= '9') || (u[0] == '0' && LeadingZeros(u[1..]))
  }

  /** The first option whose label equals the text or contains it. */
  function FirstLabelMatch(options: Assoc, t: string): (r: Option<string>)
    ensures r.Some? ==> exists i :: 0 <= i < |options| && options[i].0 == r.value
    decreases |options|
  {
    if options == [] then None
    else if options[0].1 == t then Some(options[0].0)
    else if StrPos(options[0].1, t).Some? then Some(options[0].0)
    else
      var r := FirstLabelMatch(options[1..], t);
      assert forall i :: 1 <= i < |options| ==> options[i] == options[1..][i - 1];
      r
  }

  /**
   * findTimezone($t, $options): a string whose integer cast is zero is
   * lower-cased and looked up among the labels; any other value, or a
   * string that matches no label, comes back (lower-cased if it was looked up).
   */
  function FindTimezone(t: Value, options: Assoc): (r: Value)
    ensures !(t.Str? && IntCastIsZero(t.s)) ==> r == t
    ensures t.Str? && IntCastIsZero(t.s) ==> r == Str(ToLower(t.s)) || exists i :: 0 <= i < |options| && r == Str(options[i].0)
  {
    if t.Str? && IntCastIsZero(t.s) then
      var lt := ToLower(t.s);
      match FirstLabelMatch(options, lt)
      case Some(k) => Str(k)
      case None => Str(lt)
    else t
  }

  /** The first option whose label contains the text: the reference search with one test. */
  function FirstContaining(options: Assoc, t: string): (r: Option<string>)
    ensures r.Some? ==> exists i :: 0 <= i < |options| && options[i].0 == r.value &&
                                    StrPos(options[i].1, t).Some? &&
                                    forall j :: 0 <= j < i ==> StrPos(options[j].1, t).None?
    ensures r.None? ==> forall i :: 0 <= i < |options| ==> StrPos(options[i].1, t).None?
    decreases |options|
  {
    if options == [] then None
    else if StrPos(options[0].1, t).Some? then Some(options[0].0)
    else
      var r := FirstContaining(options[1..], t);
      assert forall i :: 1 <= i < |options| ==> options[i] == options[1..][i - 1];
      r
  }

  /** A string contains itself, at position 0. */
  lemma SelfOccurs(v: string)
    ensures StrPos(v, v) == Some(0)
  {
    assert OccursAt(v, v, 0) by { assert v[0..|v|] == v; }
  }

  /** The equality test in findTimezone is subsumed by the containment test. */
  lemma {:induction false} ExactTestRedundant(options: Assoc, t: string)
    ensures FirstLabelMatch(options, t) == FirstContaining(options, t)
    decreases |options|
  {
    if options != [] {
      if options[0].1 == t {
        SelfOccurs(t);
      } else {
        ExactTestRedundant(options[1..], t);
      }
    }
  }

  /** The empty string is contained in every label, so it selects the first option. */
  lemma EmptyTextPicksFirst(options: Assoc)
    requires |options| > 0
    ensures FindTimezone(Str(""), options) == Str(options[0].0)
  {
    assert OccursAt(options[0].1, "", 0);
    assert IntCastIsZero("");
  }

  /**
   * What findTimezone returns for a looked-up string: the key of the first
   * label containing the lower-cased text, or the lower-cased text.
   */
  lemma FindTimezoneResult(t: string, options: Assoc)
    requires IntCastIsZero(t)
    ensures var lt := ToLower(t);
            (forall i :: 0 <= i < |options| ==> StrPos(options[i].1, lt).None?) ==> FindTimezone(Str(t), options) == Str(lt)
    ensures var lt := ToLower(t);
            forall i :: 0 <= i < |options| && StrPos(options[i].1, lt).Some? &&
                        (forall j :: 0 <= j < i ==> StrPos(options[j].1, lt).None?) ==>
              FindTimezone(Str(t), options) == Str(options[i].0)
  {
    var lt := ToLower(t);
    ExactTestRedundant(options, lt);
    var r := FirstContaining(options, lt);
    if r.Some? {
      var i :| 0 <= i < |options| && options[i].0 == r.value && StrPos(options[i].1, lt).Some? &&
               forall j :: 0 <= j < i ==> StrPos(options[j].1, lt).None?;
      forall i' | 0 <= i' < |options| && StrPos(options[i'].1, lt).Some? &&
                  (forall j :: 0 <= j < i' ==> StrPos(options[j].1, lt).None?)
        ensures Str(r.value) == Str(options[i'].0)
      {
        assert i' == i;
      }
    }
  }

  /** A numeric string such as "5" is not looked up at all. */
  lemma NumericTextPassesThrough(options: Assoc)
    ensures FindTimezone(Str("5"), options) == Str("5")
  {
    assert !LeadingZeros("5");
    assert SkipSpace("5") == "5";
  }
}
