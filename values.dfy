/**
 * The PHP values that flow through the installer: CLI options, entries of
 * the lazy-defaults table, form values and operator answers. Only the
 * conversions the installer performs are modelled: truthiness (if, ?:,
 * empty(), array_filter) and the cast to string (string interpolation,
 * strlen, strtolower).
 */
module Values {
  import opened Strings

  datatype Value =
    | Null
    | Bool(b: bool)
    | Num(n: int)
    | Str(s: string)
    | Strs(items: seq<string>)

  /** PHP's cast of a string to boolean: only "" and "0" are false. */
  predicate TruthyString(s: string) {
    s != "" && s != "0"
  }

  /** PHP's cast to boolean. */
  predicate Truthy(v: Value) {
    match v
    case Null => false
    case Bool(b) => b
    case Num(n) => n != 0
    case Str(s) => TruthyString(s)
    case Strs(items) => |items| > 0
  }

  function IntToString(n: int): (r: string)
    ensures |r| >= 1
  {
    if n < 0 then "-" + NatToString(-n) else NatToString(n)
  }

  /** PHP's cast to string; an array becomes the word "Array". */
  function AsString(v: Value): string {
    match v
    case Null => ""
    case Bool(b) => if b then "1" else ""
    case Num(n) => IntToString(n)
    case Str(s) => s
    case Strs(_) => "Array"
  }

  /**
   * array_filter(array_map('trim', $ss)), renumbered: every entry trimmed,
   * then the falsy ones ("" and "0") dropped.
   */
  function TrimAndFilter(ss: seq<string>): (r: seq<string>)
    ensures forall i :: 0 <= i < |r| ==> IsTrimmed(r[i]) && TruthyString(r[i])
    ensures |r| <= |ss|
    decreases |ss|
  {
    if ss == [] then []
    else
      var t := Trim(ss[0]);
      (if TruthyString(t) then [t] else []) + TrimAndFilter(ss[1..])
  }

  /** No entry is lost: every entry whose trimmed form is truthy is kept in that form. */
  lemma {:induction false} TrimAndFilterKeeps(ss: seq<string>, i: nat)
    requires i < |ss| && TruthyString(Trim(ss[i]))
    ensures Trim(ss[i]) in TrimAndFilter(ss)
    decreases |ss|
  {
    if i > 0 {
      assert ss[i] == ss[1..][i - 1];
      TrimAndFilterKeeps(ss[1..], i - 1);
    }
  }

  /**
   * The filter works entry by entry and keeps the order: filtering a
   * concatenation concatenates the filtered parts, and a single entry is
   * kept, trimmed, exactly when its trimmed form is truthy.
   */
  lemma {:induction false} TrimAndFilterAppend(a: seq<string>, b: seq<string>)
    ensures TrimAndFilter(a + b) == TrimAndFilter(a) + TrimAndFilter(b)
    decreases |a|
  {
    if a == [] {
      assert a + b == b;
    } else {
      assert (a + b)[0] == a[0];
      assert (a + b)[1..] == a[1..] + b;
      TrimAndFilterAppend(a[1..], b);
    }
  }

  lemma TrimAndFilterOne(x: string)
    ensures TrimAndFilter([x]) == if TruthyString(Trim(x)) then [Trim(x)] else []
  {
    assert [x][1..] == [];
  }

  /** Entries that are already trimmed and truthy pass through unchanged. */
  lemma {:induction false} TrimAndFilterOfClean(ss: seq<string>)
    requires forall i :: 0 <= i < |ss| ==> IsTrimmed(ss[i]) && TruthyString(ss[i])
    ensures TrimAndFilter(ss) == ss
    decreases |ss|
  {
    if ss != [] {
      TrimOfTrimmed(ss[0]);
      TrimAndFilterOfClean(ss[1..]);
      assert ss == [ss[0]] + ss[1..];
    }
  }

  /** Every entry kept is the trimmed form of some input entry. */
  lemma {:induction false} TrimAndFilterFrom(ss: seq<string>, x: string)
    requires x in TrimAndFilter(ss)
    ensures exists i :: 0 <= i < |ss| && x == Trim(ss[i])
    decreases |ss|
  {
    if Trim(ss[0]) != x || !TruthyString(Trim(ss[0])) {
      TrimAndFilterFrom(ss[1..], x);
      var i :| 0 <= i < |ss[1..]| && x == Trim(ss[1..][i]);
      assert ss[i + 1] == ss[1..][i];
    }
  }
}
