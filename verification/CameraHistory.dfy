/**
  The state of the PPS thread told from the history of events alone.
 */
module CameraHistory {
  import opened CameraEvents

  // ------------------------------------------------------------------
  // Join requests
  // ------------------------------------------------------------------

  /** The published group names, in order. */
  function Names(es: seq<Event>): seq<string> {
    if es == [] then []
    else
      var e := es[|es| - 1];
      Names(es[..|es| - 1]) + if e.Group? then [e.name] else []
  }

  /** names without the entries that repeat their predecessor; the first one is compared with
      the empty name. */
  function Changes(names: seq<string>): seq<string> {
    if names == [] then []
    else
      var n := |names| - 1;
      Changes(names[..n]) + if names[n] == Latest(names[..n]) then [] else [names[n]]
  }

  function Latest(names: seq<string>): string {
    if names == [] then "" else names[|names| - 1]
  }

  lemma ChangesSnoc(names: seq<string>, name: string)
    ensures Changes(names + [name]) == Changes(names) + if name == Latest(names) then [] else [name]
    ensures Latest(names + [name]) == name
  {
    assert (names + [name])[..|names|] == names;
  }

  /** The thread remembers the last published name and has asked to join each change of it,
      whether or not earlier joins succeeded. */
  lemma {:induction false} JoinsAreChanges(es: seq<Event>, z: int, js: JoinResults)
    ensures After(es, z, js).joins == Changes(Names(es))
    ensures After(es, z, js).value == Latest(Names(es))
  {
    if es != [] {
      var prior, e := es[..|es| - 1], es[|es| - 1];
      JoinsAreChanges(prior, z, js);
      if e.Group? {
        ChangesSnoc(Names(prior), e.name);
      } else {
        assert Names(es) == Names(prior);
      }
    }
  }

  // ------------------------------------------------------------------
  // Flags
  // ------------------------------------------------------------------

  predicate ShowsCamera(e: Event) {
    e.Command? && e.text != "{\"action\": \"pause\"}"
  }

  /** Event k is a group event whose join is requested and succeeds: the name differs from
      the one published before, and the answer to that request is 0. */
  predicate Joins(es: seq<Event>, js: JoinResults, k: int)
    requires 0 <= k < |es|
  {
    var before := Names(es[..k]);
    es[k].Group? && es[k].name != Latest(before) && js(|Changes(before)|) == 0
  }

  predicate IsCommand(es: seq<Event>, k: int)
    requires 0 <= k < |es|
  {
    es[k].Command?
  }

  /** Event k is the last command. */
  ghost predicate LastCommand(es: seq<Event>, k: int) {
    0 <= k < |es| && es[k].Command? && forall j :: k < j < |es| ==> !es[j].Command?
  }

  /** Event k is the last among commands and successful joins. */
  ghost predicate LastDecisive(es: seq<Event>, js: JoinResults, k: int) {
    && 0 <= k < |es| && (es[k].Command? || Joins(es, js, k))
    && forall j :: k < j < |es| ==> !(IsCommand(es, j) || Joins(es, js, j))
  }

  lemma JoinsPrefix(es: seq<Event>, js: JoinResults, n: nat, k: nat)
    requires k < n <= |es|
    ensures Joins(es[..n], js, k) == Joins(es, js, k)
  {
    assert es[..n][..k] == es[..k];
  }

  /** What the last event does to the flags. */
  lemma LastStep(es: seq<Event>, z: int, js: JoinResults)
    requires es != []
    ensures var n := |es| - 1;
      var m, m' := After(es[..n], z, js), After(es, z, js);
      if es[n].Command? then
        m'.visible == m'.cw == (if ShowsCamera(es[n]) then 1 else 0) && m'.wg == m.wg
        && m'.zorder == if ShowsCamera(es[n]) then -1 else m.zorder
      else
        m'.visible == m.visible && m'.zorder == m.zorder
        && if Joins(es, js, n) then m'.cw == 0 && m'.wg == 1 else m'.cw == m.cw && m'.wg == m.wg
  {
    JoinsAreChanges(es[..|es| - 1], z, js);
  }

  /** visible follows the last command: 1 if there is one and it was not a pause. */
  lemma {:induction false} VisibleHistory(es: seq<Event>, z: int, js: JoinResults)
    ensures After(es, z, js).visible == 0 || After(es, z, js).visible == 1
    ensures After(es, z, js).visible == 1 <==> exists k :: LastCommand(es, k) && ShowsCamera(es[k])
  {
    if es != [] {
      var n := |es| - 1;
      var prior := es[..n];
      LastStep(es, z, js);
      VisibleHistory(prior, z, js);
      assert forall j :: 0 <= j < n ==> prior[j] == es[j];
      if es[n].Command? {
        assert LastCommand(es, n);
        assert forall k :: LastCommand(es, k) ==> k == n;
      } else {
        assert forall k :: LastCommand(es, k) <==> LastCommand(prior, k);
      }
    }
  }

  /** ppsCw is 1 exactly when the last command or successful join was a non-pause command. */
  lemma {:induction false} CommandFlagHistory(es: seq<Event>, z: int, js: JoinResults)
    ensures After(es, z, js).cw == 0 || After(es, z, js).cw == 1
    ensures After(es, z, js).cw == 1 <==> exists k :: LastDecisive(es, js, k) && ShowsCamera(es[k])
  {
    if es != [] {
      var n := |es| - 1;
      LastStep(es, z, js);
      CommandFlagHistory(es[..n], z, js);
      DecisiveStep(es, js);
    }
  }

  /** The last event either decides or leaves the decision where it was. */
  lemma DecisiveStep(es: seq<Event>, js: JoinResults)
    requires es != []
    ensures var n := |es| - 1;
      if es[n].Command? || Joins(es, js, n) then
        LastDecisive(es, js, n) && forall k :: LastDecisive(es, js, k) ==> k == n
      else
        forall k :: LastDecisive(es, js, k) <==> LastDecisive(es[..n], js, k)
  {
    var n := |es| - 1;
    var prior := es[..n];
    if es[n].Command? || Joins(es, js, n) {
      assert IsCommand(es, n) || Joins(es, js, n);
    } else {
      forall j | 0 <= j < n
        ensures Joins(prior, js, j) == Joins(es, js, j) && IsCommand(prior, j) == IsCommand(es, j)
      {
        JoinsPrefix(es, js, n, j);
      }
      assert !IsCommand(es, n);
    }
  }

  /** ppsWg is 1 exactly when some join succeeded. */
  lemma {:induction false} GroupFlagHistory(es: seq<Event>, z: int, js: JoinResults)
    ensures After(es, z, js).wg == 0 || After(es, z, js).wg == 1
    ensures After(es, z, js).wg == 1 <==> exists k :: 0 <= k < |es| && Joins(es, js, k)
  {
    if es != [] {
      var n := |es| - 1;
      LastStep(es, z, js);
      GroupFlagHistory(es[..n], z, js);
      forall j | 0 <= j < n ensures Joins(es[..n], js, j) == Joins(es, js, j) {
        JoinsPrefix(es, js, n, j);
      }
    }
  }

  /** A set command flag means the window is shown. */
  lemma {:induction false} CommandFlagImpliesVisible(es: seq<Event>, z: int, js: JoinResults)
    ensures After(es, z, js).cw == 1 ==> After(es, z, js).visible == 1
  {
    if es != [] {
      LastStep(es, z, js);
      CommandFlagImpliesVisible(es[..|es| - 1], z, js);
    }
  }

  /** zorder leaves its configured value at the first non-pause command, for good. */
  lemma {:induction false} ZorderHistory(es: seq<Event>, z: int, js: JoinResults)
    ensures After(es, z, js).zorder == if exists k :: 0 <= k < |es| && ShowsCamera(es[k]) then -1 else z
  {
    if es != [] {
      var n := |es| - 1;
      LastStep(es, z, js);
      ZorderHistory(es[..n], z, js);
      assert forall j :: 0 <= j < n ==> es[..n][j] == es[j];
    }
  }

  /** One screen update per command, with what the command asks for. */
  function Shown(es: seq<Event>): seq<int> {
    if es == [] then []
    else
      var e := es[|es| - 1];
      Shown(es[..|es| - 1]) + if e.Command? then [if ShowsCamera(e) then 1 else 0] else []
  }

  lemma {:induction false} ScreenUpdates(es: seq<Event>, z: int, js: JoinResults)
    ensures After(es, z, js).shown == Shown(es)
  {
    if es != [] {
      ScreenUpdates(es[..|es| - 1], z, js);
    }
  }
}
