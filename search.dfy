/**
 * The search for the addresses of the devices on the network (`SearchIP`):
 * a list of addresses kept between searches, refilled from a network scan
 * only when it is empty.
 */
module Search {

  /**
   * The pieces of `s` between separators, in order (`boost::split`): two
   * adjacent separators give an empty piece, and there is always at least
   * one piece.
   */
  function Split(s: string, sep: char): (r: seq<string>)
    ensures |r| >= 1
    decreases |s|
  {
    if s == [] then [[]]
    else
      var p := Split(s[..|s| - 1], sep);
      if s[|s| - 1] == sep then p + [[]] else p[..|p| - 1] + [p[|p| - 1] + [s[|s| - 1]]]
  }

  /** The pieces put back together with the separator between them. */
  function Join(pieces: seq<string>, sep: char): string
    requires |pieces| >= 1
  {
    if |pieces| == 1 then pieces[0] else Join(pieces[..|pieces| - 1], sep) + [sep] + pieces[|pieces| - 1]
  }

  /** No piece holds the separator. */
  predicate Separated(pieces: seq<string>, sep: char)
  {
    forall i :: 0 <= i < |pieces| ==> sep !in pieces[i]
  }

  /** Splitting loses nothing: the pieces joined again are the scanned text, and no piece holds a separator. */
  lemma {:induction false} SplitJoin(s: string, sep: char)
    ensures Join(Split(s, sep), sep) == s
    ensures Separated(Split(s, sep), sep)
    decreases |s|
  {
    if s != [] {
      var t := s[..|s| - 1];
      var p := Split(t, sep);
      SplitJoin(t, sep);
      assert s == t + [s[|s| - 1]];
      if s[|s| - 1] != sep {
        JoinExtend(p, sep, s[|s| - 1]);
      } else {
        JoinEmptyPiece(p, sep);
      }
    }
  }

  lemma JoinExtend(p: seq<string>, sep: char, c: char)
    requires |p| >= 1
    ensures Join(p[..|p| - 1] + [p[|p| - 1] + [c]], sep) == Join(p, sep) + [c]
  {
    var q := p[..|p| - 1] + [p[|p| - 1] + [c]];
    if |p| > 1 {
      assert q[..|q| - 1] == p[..|p| - 1];
    }
  }

  lemma JoinEmptyPiece(p: seq<string>, sep: char)
    requires |p| >= 1
    ensures Join(p + [[]], sep) == Join(p, sep) + [sep]
  {
    assert (p + [[]])[..|p|] == p;
  }

  class SearchIP {
    /** The addresses found by the last scan (`mListIP`). */
    var list: seq<string>
    /** Whether a scan is under way (`mRunning`). */
    var running: bool

    constructor ()
      ensures list == [] && !running
    {
      list := [];
      running := false;
    }

    /** A scan is in progress: the address list may still change and must not be read. */
    predicate IsRunning(): (r: bool)
      reads this
      ensures r <==> running
    {
      running
    }

    /** The number of addresses, truncated to a byte. */
    function GetCount(): (n: nat)
      reads this
      ensures n < 256
      ensures |list| < 256 ==> n == |list|
    {
      |list| % 256
    }

    /** The address at `idx`, once no scan is running. */
    function GetIP(idx: nat): (ip: string)
      reads this
      requires !running && idx < |list|
      ensures ip in list
    {
      list[idx]
    }

    /**
     * Starts a scan. A caller that is not connected drops the addresses
     * found before, so that the scan looks for them again; a connected one
     * keeps them.
     */
    method Start(connected: bool)
      requires !running
      modifies this
      ensures running
      ensures list == (if connected then old(list) else [])
    {
      if !connected {
        list := [];
      }
      running := true;
    }

    /**
     * The scan itself, given the text the network query returns (`found`,
     * addresses separated by `sep`): the network is queried only when no
     * address is known, and a non-empty answer replaces the empty list by
     * its pieces; otherwise the list is kept. The scan ends not running.
     */
    method Scan(found: string, sep: char)
      modifies this
      ensures !running
      ensures old(list) != [] ==> list == old(list)
      ensures old(list) == [] && found == [] ==> list == []
      ensures old(list) == [] && found != [] ==> list == Split(found, sep) && Join(list, sep) == found && Separated(list, sep)
    {
      if list == [] {
        if found != [] {
          list := Split(found, sep);
          SplitJoin(found, sep);
        }
      }
      running := false;
    }
  }
}
