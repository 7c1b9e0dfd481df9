/**
 * The heading half of getStep: a page carrying the installer banner is
 * classified by its h2 texts, scanned from the last to the first, against
 * a fixed table; when none matches, the reversed raw list is returned.
 */
module Steps {
  import opened Wrappers
  import opened Strings

  datatype Step = Welcome | Compatibility | Profile | Database | Admin | Finish

  /** getStep's result for a page that has the installer banner. */
  datatype Classified = Known(step: Step) | Unknown(headings: seq<string>)

  /** The outer HTML of the h1 that marks an installer page. */
  const InstallerBanner: string := "<h1 class=\"uk-margin-remove-top\">ProcessWire 3.x Installer</h1>"

  /** The heading table, tried in this order on a trimmed heading. */
  function HeadingStep(h: string): Option<Step> {
    if h == "Compatibility Check" then Some(Compatibility)
    else if h == "Site Installation Profile" then Some(Profile)
    else if "Welcome." <= h then Some(Welcome)
    else if h == "Debug mode?" then Some(Database)
    else if h == "Admin Panel" then Some(Admin)
    else if h == "Admin Account Saved" then Some(Finish)
    else None
  }

  /** "Welcome." is matched as a prefix, the other five headings exactly. */
  lemma HeadingTable(h: string)
    ensures HeadingStep(h) == Some(Welcome) <==> "Welcome." <= h
    ensures HeadingStep(h) == Some(Compatibility) <==> h == "Compatibility Check"
    ensures HeadingStep(h) == Some(Profile) <==> h == "Site Installation Profile"
    ensures HeadingStep(h) == Some(Database) <==> h == "Debug mode?"
    ensures HeadingStep(h) == Some(Admin) <==> h == "Admin Panel"
    ensures HeadingStep(h) == Some(Finish) <==> h == "Admin Account Saved"
  {
    if h == "Debug mode?" || h == "Admin Panel" || h == "Admin Account Saved" {
      assert h[0] != "Welcome."[0];
    }
    if "Welcome." <= h {
      assert h[0] == 'W';
    }
  }

  function Reverse(s: seq<string>): (r: seq<string>)
    ensures |r| == |s|
    ensures forall k :: 0 <= k < |s| ==> r[k] == s[|s| - 1 - k]
  {
    if s == [] then [] else Reverse(s[1..]) + [s[0]]
  }

  /** The table entry of a heading, after trim(). */
  function Match(h: string): Option<Step> {
    HeadingStep(Trim(h))
  }

  /** The foreach over the reversed list: the entry of the first heading that has one. */
  function FirstMatch(hs: seq<string>, m: string -> Option<Step>): (r: Option<Step>)
    ensures r.Some? ==> exists k :: 0 <= k < |hs| && m(hs[k]) == r && forall j :: 0 <= j < k ==> m(hs[j]).None?
    ensures r.None? ==> forall k :: 0 <= k < |hs| ==> m(hs[k]).None?
    decreases |hs|
  {
    if hs == [] then None
    else if m(hs[0]).Some? then m(hs[0])
    else
      var r := FirstMatch(hs[1..], m);
      assert forall k :: 1 <= k < |hs| ==> hs[k] == hs[1..][k - 1];
      r
  }

  /** getStep on the h2 texts of an installer page, in document order. */
  function ClassifyHeadings(h2s: seq<string>): Classified {
    var reversed := Reverse(h2s);
    match FirstMatch(reversed, Match)
    case Some(s) => Known(s)
    case None => Unknown(reversed)
  }

  /** No heading of the list is in the table. */
  predicate NoneMatch(h2s: seq<string>) {
    forall i :: 0 <= i < |h2s| ==> Match(h2s[i]).None?
  }

  /** Some heading has entry s, and no later heading has any. */
  predicate IsLastMatch(h2s: seq<string>, m: string -> Option<Step>, s: Step) {
    exists i :: 0 <= i < |h2s| && m(h2s[i]) == Some(s) && forall j :: i < j < |h2s| ==> m(h2s[j]).None?
  }

  /** The last heading in document order that is in the table decides. */
  lemma LastMatchDecides(h2s: seq<string>, s: Step)
    ensures ClassifyHeadings(h2s) == Known(s) <==> IsLastMatch(h2s, Match, s)
  {
    if ClassifyHeadings(h2s) == Known(s) {
      KnownIsLastMatch(h2s, Match, s);
    }
    if IsLastMatch(h2s, Match, s) {
      LastMatchIsKnown(h2s, Match, s);
    }
  }

  lemma KnownIsLastMatch(h2s: seq<string>, m: string -> Option<Step>, s: Step)
    requires FirstMatch(Reverse(h2s), m) == Some(s)
    ensures IsLastMatch(h2s, m, s)
  {
    var rev := Reverse(h2s);
    var n := |h2s|;
    var k :| 0 <= k < n && m(rev[k]) == Some(s) && forall j :: 0 <= j < k ==> m(rev[j]).None?;
    var i := n - 1 - k;
    assert h2s[i] == rev[k];
    forall j | i < j < n ensures m(h2s[j]).None? {
      assert h2s[j] == rev[n - 1 - j];
    }
  }

  lemma LastMatchIsKnown(h2s: seq<string>, m: string -> Option<Step>, s: Step)
    requires IsLastMatch(h2s, m, s)
    ensures FirstMatch(Reverse(h2s), m) == Some(s)
  {
    var rev := Reverse(h2s);
    var n := |h2s|;
    var i :| 0 <= i < n && m(h2s[i]) == Some(s) && forall j :: i < j < n ==> m(h2s[j]).None?;
    var k := n - 1 - i;
    assert rev[k] == h2s[i];
    forall j | 0 <= j < k ensures m(rev[j]).None? {
      assert rev[j] == h2s[n - 1 - j];
    }
    var r := FirstMatch(rev, m);
    assert r.Some?;
    var k' :| 0 <= k' < n && m(rev[k']) == r && forall j :: 0 <= j < k' ==> m(rev[j]).None?;
    assert k' == k;
  }

  /** With no match, the headings come back reversed and untrimmed. */
  lemma UnmatchedHeadingsReturned(h2s: seq<string>)
    ensures ClassifyHeadings(h2s).Unknown? <==> NoneMatch(h2s)
    ensures ClassifyHeadings(h2s).Unknown? ==> ClassifyHeadings(h2s).headings == Reverse(h2s)
  {
    var rev := Reverse(h2s);
    if NoneMatch(h2s) {
      forall k | 0 <= k < |rev| ensures Match(rev[k]).None? {
        assert rev[k] == h2s[|h2s| - 1 - k];
      }
    }
    if ClassifyHeadings(h2s).Unknown? {
      forall i | 0 <= i < |h2s| ensures Match(h2s[i]).None? {
        assert h2s[i] == rev[|h2s| - 1 - i];
      }
    }
  }

  /** A stale section heading above the current one does not decide. */
  lemma StaleHeadingIgnored()
    ensures ClassifyHeadings(["Compatibility Check", "Debug mode?"]) == Known(Database)
  {
    var h2s := ["Compatibility Check", "Debug mode?"];
    assert Trim("Debug mode?") == "Debug mode?" by { TrimOfTrimmed("Debug mode?"); }
    assert Reverse(h2s)[0] == "Debug mode?";
  }
}
