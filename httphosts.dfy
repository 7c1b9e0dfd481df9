/**
 * cleanHttpHostsArray: splits, trims and filters a host list, then walks it
 * once with a `seen` table (insertion-ordered, as PHP arrays are) and a
 * `cleaned` list. Bare hosts go to `cleaned` at once; an entry ending in
 * :443 or :80 is only marked 'skip' unless its bare part is already in
 * `seen`; the 'skip' entries are appended afterwards and duplicates
 * dropped. The model follows the code: a default-port entry that comes
 * before its bare host is kept alongside it.
 */
module HttpHosts {
  import opened Strings
  import opened Values

  /** The $hosts argument: a string to split, or an array of entries. */
  datatype HostsInput = FromString(s: string) | FromList(items: seq<string>)

  /** The characters of preg_split('/[\s,]+/'): \s is space, \t, \n, \v, \f and \r. */
  const HostDelims: set<char> := {' ', '\t', '\n', '\U{B}', '\U{C}', '\r', ','}

  /**
   * The entries the loop walks: split (a string only), trimmed, with the
   * falsy ones ("" and "0") removed. Splitting at single delimiters instead
   * of runs of them only adds empty pieces, which the filter removes.
   */
  function Entries(h: HostsInput): (r: seq<string>)
    ensures forall i :: 0 <= i < |r| ==> IsTrimmed(r[i]) && TruthyString(r[i])
  {
    var raw := match h
      case FromString(s) => Split(s, HostDelims)
      case FromList(items) => items;
    TrimAndFilter(raw)
  }

  /** Entries split out of a string contain none of the separators. */
  lemma StringEntriesHaveNoDelims(s: string)
    ensures forall x :: x in Entries(FromString(s)) ==> NoneOf(x, HostDelims)
  {
    var raw := Split(s, HostDelims);
    forall x | x in Entries(FromString(s)) ensures NoneOf(x, HostDelims) {
      TrimAndFilterFrom(raw, x);
      var i :| 0 <= i < |raw| && x == Trim(raw[i]);
      TrimKeepsNoneOf(raw[i], HostDelims);
    }
  }

  /** /^(.+):(443|80)$/ — `.` does not match a newline. */
  predicate IsPortForm(h: string) {
    (|h| > 4 && h[|h| - 4..] == ":443" && '\n' !in h[..|h| - 4]) ||
    (|h| > 3 && h[|h| - 3..] == ":80" && '\n' !in h[..|h| - 3])
  }

  /** The first capture group: the host without its default port. */
  function Bare(h: string): (r: string)
    requires IsPortForm(h)
    ensures |r| >= 1 && (h == r + ":443" || h == r + ":80")
  {
    if |h| > 4 && h[|h| - 4..] == ":443" && '\n' !in h[..|h| - 4] then h[..|h| - 4] else h[..|h| - 3]
  }

  datatype Mark = Skip | Add

  /** The loop's state: the keys of $seen in insertion order, $seen itself, and $cleaned. */
  datatype ScanState = ScanState(keys: seq<string>, seen: map<string, Mark>, cleaned: seq<string>)

  /** One pass of the first foreach. */
  function ScanStep(st: ScanState, h: string): ScanState {
    if IsPortForm(h) then
      if Bare(h) in st.seen then st
      else if h in st.seen then st
      else ScanState(st.keys + [h], st.seen[h := Skip], st.cleaned)
    else
      ScanState(if h in st.seen then st.keys else st.keys + [h], st.seen[h := Add], st.cleaned + [h])
  }

  /** The state after the first foreach has walked es. */
  function Scan(es: seq<string>): ScanState
    decreases |es|
  {
    if es == [] then ScanState([], map[], []) else ScanStep(Scan(es[..|es| - 1]), es[|es| - 1])
  }

  /** The second foreach: the keys of $seen marked 'skip', in insertion order. */
  function Skipped(keys: seq<string>, seen: map<string, Mark>): (r: seq<string>)
    ensures forall x :: x in r ==> x in keys && x in seen && seen[x] == Skip
    decreases |keys|
  {
    if keys == [] then []
    else
      var last := keys[|keys| - 1];
      Skipped(keys[..|keys| - 1], seen) + (if last in seen && seen[last] == Skip then [last] else [])
  }

  predicate NoDup(s: seq<string>) {
    forall i, j :: 0 <= i < j < |s| ==> s[i] != s[j]
  }

  /** array_values(array_unique(...)): the first occurrence of every value, in order. */
  function Unique(s: seq<string>): (r: seq<string>)
    ensures NoDup(r)
    ensures forall x :: x in r <==> x in s
    decreases |s|
  {
    if s == [] then []
    else
      var u := Unique(s[..|s| - 1]);
      var last := s[|s| - 1];
      assert forall x :: x in s <==> x in s[..|s| - 1] || x == last;
      if last in u then u else u + [last]
  }

  /** The position of the first occurrence of x in s. */
  function FirstIndex(s: seq<string>, x: string): (r: nat)
    requires x in s
    ensures r < |s| && s[r] == x && forall k :: 0 <= k < r ==> s[k] != x
    decreases |s|
  {
    if s[0] == x then 0 else 1 + FirstIndex(s[1..], x)
  }

  /** Appending leaves the first occurrence of a value already present where it was. */
  lemma FirstIndexOfPrefix(s: seq<string>, y: string, x: string)
    requires x in s
    ensures FirstIndex(s + [y], x) == FirstIndex(s, x)
  {
    var a, b := FirstIndex(s + [y], x), FirstIndex(s, x);
    assert (s + [y])[b] == x;
  }

  /** array_unique keeps the values in the order of their first occurrence. */
  lemma {:induction false} UniqueInFirstOccurrenceOrder(s: seq<string>, i: nat, j: nat)
    requires i < j < |Unique(s)|
    ensures FirstIndex(s, Unique(s)[i]) < FirstIndex(s, Unique(s)[j])
    decreases |s|
  {
    var init, last := s[..|s| - 1], s[|s| - 1];
    assert s == init + [last];
    var u := Unique(init);
    var ui, uj := Unique(s)[i], Unique(s)[j];
    assert ui in Unique(s) && uj in Unique(s);
    if j < |u| {
      assert ui == u[i] && uj == u[j];
      assert ui in init && uj in init;
      UniqueInFirstOccurrenceOrder(init, i, j);
      FirstIndexOfPrefix(init, last, ui);
      FirstIndexOfPrefix(init, last, uj);
    } else {
      assert last !in u && uj == last && last !in init;
      assert ui == u[i] && ui in u && ui in init;
      FirstIndexOfPrefix(init, last, ui);
    }
  }

  /** What cleanHttpHostsArray returns. */
  function Cleaned(h: HostsInput): seq<string> {
    var st := Scan(Entries(h));
    Unique(st.cleaned + Skipped(st.keys, st.seen))
  }

  /** cleanHttpHostsArray($hosts). */
  method CleanHttpHostsArray(hosts: HostsInput) returns (r: seq<string>)
    ensures r == Cleaned(hosts)
  {
    var es := Entries(hosts);
    var keys, seen, cleaned := ScanEntries(es);
    var all := AppendSkipped(cleaned, keys, seen);
    r := Unique(all);
  }

  /** The first foreach of cleanHttpHostsArray. */
  method ScanEntries(es: seq<string>) returns (keys: seq<string>, seen: map<string, Mark>, cleaned: seq<string>)
    ensures Scan(es) == ScanState(keys, seen, cleaned)
  {
    keys, seen, cleaned := [], map[], [];
    var i := 0;
    while i < |es|
      invariant 0 <= i <= |es|
      invariant Scan(es[..i]) == ScanState(keys, seen, cleaned)
    {
      var host := es[i];
      assert es[..i + 1][..i] == es[..i];
      if IsPortForm(host) {
        // a default-port entry is only marked, unless its bare host was seen
        var bare := Bare(host);
        if bare !in seen && host !in seen {
          keys := keys + [host];
          seen := seen[host := Skip];
        }
      } else {
        if host !in seen {
          keys := keys + [host];
        }
        seen := seen[host := Add];
        cleaned := cleaned + [host];
      }
      i := i + 1;
    }
    assert es[..|es|] == es;
  }

  /** The second foreach: the 'skip' keys of $seen appended to $cleaned. */
  method AppendSkipped(first: seq<string>, keys: seq<string>, seen: map<string, Mark>) returns (cleaned: seq<string>)
    ensures cleaned == first + Skipped(keys, seen)
  {
    cleaned := first;
    var j := 0;
    while j < |keys|
      invariant 0 <= j <= |keys|
      invariant cleaned == first + Skipped(keys[..j], seen)
    {
      assert keys[..j + 1][..j] == keys[..j];
      if keys[j] in seen && seen[keys[j]] == Skip {
        cleaned := cleaned + [keys[j]];
      }
      j := j + 1;
    }
    assert keys[..|keys|] == keys;
  }

  /** The entries that are not of the form host:443 or host:80, in order. */
  function BareEntries(es: seq<string>): (r: seq<string>)
    ensures forall x :: x in r <==> x in es && !IsPortForm(x)
    decreases |es|
  {
    if es == [] then []
    else
      var last := es[|es| - 1];
      assert forall x :: x in es <==> x in es[..|es| - 1] || x == last;
      BareEntries(es[..|es| - 1]) + (if IsPortForm(last) then [] else [last])
  }

  /** $seen's keys are listed once each, and 'skip' marks exactly the default-port entries. */
  ghost predicate KeysFacts(st: ScanState) {
    NoDup(st.keys) &&
    (forall k :: k in st.keys <==> k in st.seen) &&
    (forall k :: k in st.seen ==> st.seen[k] == (if IsPortForm(k) then Skip else Add))
  }

  lemma {:induction false} ScanKeys(es: seq<string>)
    ensures KeysFacts(Scan(es))
    decreases |es|
  {
    if es != [] {
      ScanKeys(es[..|es| - 1]);
      var st := Scan(es[..|es| - 1]);
      var h := es[|es| - 1];
      if h !in st.seen {
        assert forall i :: 0 <= i < |st.keys| ==> st.keys[i] != h;
      }
    }
  }

  /** The first loop puts exactly the bare entries into $cleaned. */
  lemma {:induction false} ScanCleaned(es: seq<string>)
    ensures Scan(es).cleaned == BareEntries(es)
    decreases |es|
  {
    if es != [] {
      ScanCleaned(es[..|es| - 1]);
    }
  }

  /** A bare host is in $seen exactly when it is one of the entries. */
  lemma {:induction false} ScanSeenBare(es: seq<string>)
    ensures forall k :: !IsPortForm(k) ==> (k in Scan(es).seen <==> k in es)
    decreases |es|
  {
    if es != [] {
      ScanSeenBare(es[..|es| - 1]);
      assert forall x :: x in es <==> x in es[..|es| - 1] || x == es[|es| - 1];
    }
  }

  /** A default-port entry is in $seen when at one of its occurrences its bare part was not. */
  ghost predicate MarkedWhenMet(es: seq<string>, k: string)
    requires IsPortForm(k)
  {
    exists i :: 0 <= i < |es| && es[i] == k && Bare(k) !in Scan(es[..i]).seen
  }

  lemma {:induction false} ScanSeenPort(es: seq<string>, k: string)
    requires IsPortForm(k)
    ensures k in Scan(es).seen <==> MarkedWhenMet(es, k)
  {
    if k in Scan(es).seen {
      SeenWasMarked(es, k);
    }
    if MarkedWhenMet(es, k) {
      var i :| 0 <= i < |es| && es[i] == k && Bare(k) !in Scan(es[..i]).seen;
      MarkedIsSeen(es, k, i);
    }
  }

  /** The first foreach never removes a key from $seen. */
  lemma ScanStepKeeps(st: ScanState, h: string, k: string)
    requires k in st.seen
    ensures k in ScanStep(st, h).seen
  {
  }

  lemma {:induction false} MarkedIsSeen(es: seq<string>, k: string, i: nat)
    requires IsPortForm(k) && i < |es| && es[i] == k && Bare(k) !in Scan(es[..i]).seen
    ensures k in Scan(es).seen
    decreases |es|
  {
    var n := |es| - 1;
    var init := es[..n];
    assert Scan(es) == ScanStep(Scan(init), es[n]);
    if i < n {
      assert es[..i] == init[..i];
      MarkedIsSeen(init, k, i);
      ScanStepKeeps(Scan(init), es[n], k);
    } else {
      assert es[..i] == init;
    }
  }

  lemma {:induction false} SeenWasMarked(es: seq<string>, k: string)
    requires IsPortForm(k) && k in Scan(es).seen
    ensures MarkedWhenMet(es, k)
    decreases |es|
  {
    var n := |es| - 1;
    var init := es[..n];
    assert Scan(es) == ScanStep(Scan(init), es[n]);
    if k in Scan(init).seen {
      SeenWasMarked(init, k);
      var i :| 0 <= i < n && init[i] == k && Bare(k) !in Scan(init[..i]).seen;
      assert es[..i] == init[..i];
      assert es[i] == k;
    } else {
      assert es[n] == k;
      assert es[..n] == init;
    }
  }

  lemma {:induction false} UniqueAppendFresh(a: seq<string>, b: seq<string>)
    requires NoDup(b)
    requires forall x :: x in b ==> x !in a
    ensures Unique(a + b) == Unique(a) + b
    decreases |b|
  {
    if b != [] {
      var b' := b[..|b| - 1];
      assert (a + b)[..|a + b| - 1] == a + b';
      UniqueAppendFresh(a, b');
      assert b[|b| - 1] !in b';
    } else {
      assert a + b == a;
    }
  }

  lemma {:induction false} SkippedNoDup(keys: seq<string>, seen: map<string, Mark>)
    requires NoDup(keys)
    ensures NoDup(Skipped(keys, seen))
    decreases |keys|
  {
    if keys != [] {
      SkippedNoDup(keys[..|keys| - 1], seen);
      assert keys[|keys| - 1] !in keys[..|keys| - 1];
    }
  }

  lemma {:induction false} SkippedHasAllSkips(keys: seq<string>, seen: map<string, Mark>, k: string)
    requires k in keys && k in seen && seen[k] == Skip
    ensures k in Skipped(keys, seen)
    decreases |keys|
  {
    if keys[|keys| - 1] != k {
      assert k in keys[..|keys| - 1];
      SkippedHasAllSkips(keys[..|keys| - 1], seen, k);
    }
  }

  /** Every host in the result is a trimmed, non-empty entry of the input. */
  lemma CleanedAreEntries(h: HostsInput)
    ensures forall x :: x in Cleaned(h) ==> x in Entries(h) && IsTrimmed(x) && TruthyString(x)
  {
    var es := Entries(h);
    ScanCleaned(es);
    ScanKeys(es);
    var st := Scan(es);
    forall x | x in Cleaned(h) ensures x in es {
      assert x in st.cleaned + Skipped(st.keys, st.seen);
      if x !in st.cleaned {
        assert x in st.seen && IsPortForm(x);
        ScanSeenPort(es, x);
        var i :| 0 <= i < |es| && es[i] == x && Bare(x) !in Scan(es[..i]).seen;
      }
    }
  }

  /**
   * The bare hosts come first, each once, in the order they were first
   * seen; everything after them is a host:443 or host:80 entry, each once.
   */
  lemma CleanedShape(h: HostsInput)
    ensures NoDup(Cleaned(h))
    ensures var r, u := Cleaned(h), Unique(BareEntries(Entries(h)));
            |u| <= |r| && r[..|u|] == u && forall j :: |u| <= j < |r| ==> IsPortForm(r[j])
  {
    var es := Entries(h);
    ScanCleaned(es);
    ScanKeys(es);
    var st := Scan(es);
    var skips := Skipped(st.keys, st.seen);
    SkippedNoDup(st.keys, st.seen);
    assert forall x :: x in skips ==> IsPortForm(x);
    UniqueAppendFresh(st.cleaned, skips);
    var r := Cleaned(h);
    assert r == Unique(BareEntries(es)) + skips;
    assert forall j :: |Unique(BareEntries(es))| <= j < |r| ==> r[j] in skips;
  }

  /** Every bare host of the input survives. */
  lemma BareHostsKept(h: HostsInput, x: string)
    requires x in Entries(h) && !IsPortForm(x)
    ensures x in Cleaned(h)
  {
    ScanCleaned(Entries(h));
  }

  /**
   * A default-port entry (whose bare part is an ordinary host) is dropped
   * exactly when its bare host occurs before the entry's first occurrence,
   * and kept otherwise, even if the bare host turns up later.
   */
  lemma DefaultPortEntryKept(h: HostsInput, x: string)
    requires IsPortForm(x) && !IsPortForm(Bare(x))
    ensures x in Cleaned(h) <==>
            exists i :: 0 <= i < |Entries(h)| && Entries(h)[i] == x && Bare(x) !in Entries(h)[..i]
  {
    var es := Entries(h);
    ScanCleaned(es);
    ScanKeys(es);
    ScanSeenPort(es, x);
    var st := Scan(es);
    forall i | 0 <= i < |es|
      ensures Bare(x) in Scan(es[..i]).seen <==> Bare(x) in es[..i]
    {
      ScanSeenBare(es[..i]);
    }
    if x in st.seen {
      SkippedHasAllSkips(st.keys, st.seen, x);
    }
  }

  /** A list of hosts that are already trimmed and non-empty is walked as it is. */
  lemma {:induction false} EntriesOfCleanList(items: seq<string>)
    requires forall i :: 0 <= i < |items| ==> IsTrimmed(items[i]) && TruthyString(items[i])
    ensures Entries(FromList(items)) == items
  {
    TrimAndFilterOfClean(items);
  }

  lemma PortFormOfA()
    ensures IsPortForm("a:443") && Bare("a:443") == "a" && !IsPortForm("a")
  {
    assert "a:443"[1..] == ":443" && "a:443"[..1] == "a";
  }

  lemma ScanPortThenBare()
    ensures Scan(["a:443", "a"]) == ScanState(["a:443", "a"], map["a:443" := Skip, "a" := Add], ["a"])
  {
    var es := ["a:443", "a"];
    PortFormOfA();
    assert es[..1] == ["a:443"] && es[..1][..0] == [];
    assert Scan(es[..1]) == ScanState(["a:443"], map["a:443" := Skip], []);
  }

  lemma SkippedPortThenBare()
    ensures Skipped(["a:443", "a"], map["a:443" := Skip, "a" := Add]) == ["a:443"]
  {
    assert ["a:443", "a"][..1] == ["a:443"] && ["a:443"][..0] == [];
  }

  lemma UniqueBareThenPort()
    ensures Unique(["a", "a:443"]) == ["a", "a:443"]
  {
    assert ["a", "a:443"][..1] == ["a"] && ["a"][..0] == [];
    assert Unique(["a"]) == ["a"];
  }

  /** "a:443" before "a": both survive, the bare host first. */
  lemma PortBeforeBareKeepsBoth()
    ensures Cleaned(FromList(["a:443", "a"])) == ["a", "a:443"]
  {
    EntriesOfCleanList(["a:443", "a"]);
    ScanPortThenBare();
    SkippedPortThenBare();
    assert ["a"] + ["a:443"] == ["a", "a:443"];
    UniqueBareThenPort();
  }

  lemma ScanBareThenPort()
    ensures Scan(["a", "a:443"]) == ScanState(["a"], map["a" := Add], ["a"])
  {
    var es := ["a", "a:443"];
    PortFormOfA();
    assert es[..1] == ["a"] && es[..1][..0] == [];
    assert Scan(es[..1]) == ScanState(["a"], map["a" := Add], ["a"]);
  }

  lemma SkippedOfBare()
    ensures Skipped(["a"], map["a" := Add]) == []
  {
    assert ["a"][..0] == [];
  }

  lemma UniqueOfSingle()
    ensures Unique(["a"]) == ["a"]
  {
    assert ["a"][..0] == [];
  }

  /** "a" before "a:443": only the bare host survives. */
  lemma BareBeforePortKeepsBare()
    ensures Cleaned(FromList(["a", "a:443"])) == ["a"]
  {
    EntriesOfCleanList(["a", "a:443"]);
    ScanBareThenPort();
    SkippedOfBare();
    assert ["a"] + [] == ["a"];
    UniqueOfSingle();
  }

  lemma ScanOfLonePort()
    ensures Scan(["a:443"]) == ScanState(["a:443"], map["a:443" := Skip], [])
  {
    PortFormOfA();
    assert ["a:443"][..0] == [];
  }

  lemma SkippedOfLonePort()
    ensures Skipped(["a:443"], map["a:443" := Skip]) == ["a:443"]
  {
    assert ["a:443"][..0] == [];
  }

  lemma UniqueOfLonePort()
    ensures Unique(["a:443"]) == ["a:443"]
  {
    assert ["a:443"][..0] == [];
  }

  /** A lone default-port entry is kept. */
  lemma LonePortEntryKept()
    ensures Cleaned(FromList(["a:443"])) == ["a:443"]
  {
    EntriesOfCleanList(["a:443"]);
    ScanOfLonePort();
    SkippedOfLonePort();
    assert [] + ["a:443"] == ["a:443"];
    UniqueOfLonePort();
  }

  lemma ScanOfRepeated()
    ensures Scan(["b", "b", "c"]) == ScanState(["b", "c"], map["b" := Add, "c" := Add], ["b", "b", "c"])
  {
    var es := ["b", "b", "c"];
    assert !IsPortForm("b") && !IsPortForm("c");
    assert es[..2] == ["b", "b"] && es[..2][..1] == ["b"] && es[..2][..1][..0] == [];
    assert Scan(es[..2][..1]) == ScanState(["b"], map["b" := Add], ["b"]);
    assert Scan(es[..2]) == ScanState(["b"], map["b" := Add], ["b", "b"]);
  }

  lemma SkippedOfRepeated()
    ensures Skipped(["b", "c"], map["b" := Add, "c" := Add]) == []
  {
    assert ["b", "c"][..1] == ["b"] && ["b"][..0] == [];
  }

  lemma UniqueOfRepeated()
    ensures Unique(["b", "b", "c"]) == ["b", "c"]
  {
    var es := ["b", "b", "c"];
    assert es[..2] == ["b", "b"] && ["b", "b"][..1] == ["b"] && ["b"][..0] == [];
    assert Unique(["b"]) == ["b"];
    assert Unique(["b", "b"]) == ["b"];
  }

  /** A repeated host is listed once, in first-seen order. */
  lemma RepeatedHostOnce()
    ensures Cleaned(FromList(["b", "b", "c"])) == ["b", "c"]
  {
    EntriesOfCleanList(["b", "b", "c"]);
    ScanOfRepeated();
    SkippedOfRepeated();
    assert ["b", "b", "c"] + [] == ["b", "b", "c"];
    UniqueOfRepeated();
  }
}
