/**
 * The map editor of 1/generator.py: obstacles and teleporter pairs edited
 * by clicks, a key that switches between obstacle and teleport mode, and
 * the teleporter list written back to the map file.
 *
 * The window is left out: each frame is the grid cell under the mouse when
 * the frame began and the events that arrived during it. Every click of a
 * frame acts on that cell, and a quit or return event ends the editor once
 * its frame has been handled.
 */
module MapEditor {
  import opened Wrappers
  import opened GridEnv

  datatype Mode = ObstacleMode | TeleportMode

  /** The editor's state: the map being edited, the mode, and the first gate of a pair being placed. */
  datatype Editor = Editor(obs: set<Cell>, teleports: map<Cell, Cell>, mode: Mode, pending: Option<Cell>)

  datatype Event = MouseDown | KeyT | KeyReturn | Quit | Other

  datatype Frame = Frame(mouse: Cell, events: seq<Event>)

  /** The editor opened on a loaded map: obstacle mode, no gate pending. */
  function Start(env: Env): (ed: Editor)
    ensures ed.obs == env.obs && ed.teleports == env.teleports && ed.mode == ObstacleMode && ed.pending.None?
  {
    Editor(env.obs, env.teleports, ObstacleMode, None)
  }

  /** toggle_obstacle: the clicked cell joins the obstacles or leaves them; nothing else changes. */
  function ToggleObstacle(ed: Editor, pos: Cell): (r: Editor)
    ensures r.teleports == ed.teleports && r.mode == ed.mode && r.pending == ed.pending
    ensures pos in r.obs <==> pos !in ed.obs
    ensures forall c :: c != pos ==> (c in r.obs <==> c in ed.obs)
  {
    if pos in ed.obs then ed.(obs := ed.obs - {pos}) else ed.(obs := ed.obs + {pos})
  }

  /** Toggling the same cell twice restores the editor. */
  lemma ToggleObstacleTwice(ed: Editor, pos: Cell)
    ensures ToggleObstacle(ToggleObstacle(ed, pos), pos) == ed
  {
    var r := ToggleObstacle(ToggleObstacle(ed, pos), pos);
    assert r.obs == ed.obs;
  }

  /**
   * toggle_teleporter. On a teleporter: it and its partner are popped and
   * the pending gate dropped; the second pop raises KeyError (None) when
   * the partner is the cell itself or is not a teleporter. Elsewhere: the
   * cell becomes the pending gate, or is linked both ways with a different
   * pending gate, and either way the pending gate is then cleared.
   */
  function ToggleTeleporter(ed: Editor, pos: Cell): (r: Option<Editor>)
    ensures pos in ed.teleports ==>
      (r.None? <==> ed.teleports[pos] == pos || ed.teleports[pos] !in ed.teleports) &&
      (r.Some? ==> r.value == ed.(teleports := ed.teleports - {pos, ed.teleports[pos]}, pending := None))
    ensures pos !in ed.teleports ==> r.Some? && r.value.obs == ed.obs && r.value.mode == ed.mode
    ensures pos !in ed.teleports && ed.pending.None? ==> r.value == ed.(pending := Some(pos))
    ensures pos !in ed.teleports && ed.pending.Some? ==> r.value.pending.None?
    ensures pos !in ed.teleports && ed.pending == Some(pos) ==> r.value.teleports == ed.teleports
    ensures pos !in ed.teleports && ed.pending.Some? && ed.pending.value != pos ==>
      var p := ed.pending.value; var t := r.value.teleports;
      t.Keys == ed.teleports.Keys + {p, pos} && t[p] == pos && t[pos] == p &&
      forall c :: c in ed.teleports && c != p ==> t[c] == ed.teleports[c]
  {
    if pos in ed.teleports then
      var pair := ed.teleports[pos];
      var t := ed.teleports - {pos};
      if pair !in t then None
      else
        assert t - {pair} == ed.teleports - {pos, pair};
        Some(ed.(teleports := t - {pair}, pending := None))
    else if ed.pending.None? then Some(ed.(pending := Some(pos)))
    else if ed.pending.value != pos then
      var p := ed.pending.value;
      Some(ed.(teleports := ed.teleports[p := pos][pos := p], pending := None))
    else Some(ed.(pending := None))
  }

  /**
   * A click as input_map handles it: in obstacle mode the cell is toggled
   * when it is an obstacle or not a teleporter; in teleport mode the
   * teleporter handling runs when it is a teleporter or not an obstacle.
   */
  function Click(ed: Editor, pos: Cell): (r: Option<Editor>)
    ensures ed.mode == ObstacleMode ==>
      r.Some? && r.value.teleports == ed.teleports && r.value.pending == ed.pending &&
      (r.value.obs != ed.obs <==> pos in ed.obs || pos !in ed.teleports)
    ensures ed.mode == TeleportMode ==>
      r == (if pos in ed.teleports || pos !in ed.obs then ToggleTeleporter(ed, pos) else Some(ed))
  {
    if ed.mode == ObstacleMode then
      if pos in ed.obs || pos !in ed.teleports then
        assert (pos in ToggleObstacle(ed, pos).obs) != (pos in ed.obs);
        Some(ToggleObstacle(ed, pos))
      else Some(ed)
    else if pos in ed.teleports || pos !in ed.obs then ToggleTeleporter(ed, pos)
    else Some(ed)
  }

  /** The click with the obstacle guard also refusing the pending gate. */
  function ClickSafe(ed: Editor, pos: Cell): (r: Option<Editor>)
    ensures ed.mode == ObstacleMode ==>
      r.Some? && r.value.teleports == ed.teleports && r.value.pending == ed.pending &&
      (r.value.obs != ed.obs <==> pos in ed.obs || (pos !in ed.teleports && ed.pending != Some(pos)))
    ensures ed.mode == TeleportMode ==> r == Click(ed, pos)
  {
    if ed.mode == ObstacleMode then
      if pos in ed.obs || (pos !in ed.teleports && ed.pending != Some(pos)) then
        assert (pos in ToggleObstacle(ed, pos).obs) != (pos in ed.obs);
        Some(ToggleObstacle(ed, pos))
      else Some(ed)
    else Click(ed, pos)
  }

  function Flip(m: Mode): Mode {
    if m == ObstacleMode then TeleportMode else ObstacleMode
  }

  /** One event of a frame; fixed chooses the corrected click. */
  function Apply(ed: Editor, mouse: Cell, ev: Event, fixed: bool): Option<Editor> {
    match ev
    case MouseDown => if fixed then ClickSafe(ed, mouse) else Click(ed, mouse)
    case KeyT => Some(ed.(mode := Flip(ed.mode)))
    case _ => Some(ed)
  }

  /** The events of one frame in order; a KeyError ends the editor. */
  function Events(ed: Editor, mouse: Cell, evs: seq<Event>, fixed: bool): Option<Editor>
    decreases |evs|
  {
    if |evs| == 0 then Some(ed)
    else
      match Apply(ed, mouse, evs[0], fixed)
      case None => None
      case Some(ed') => Events(ed', mouse, evs[1..], fixed)
  }

  predicate Stops(evs: seq<Event>) {
    exists i :: 0 <= i < |evs| && (evs[i] == Quit || evs[i] == KeyReturn)
  }

  /** The editor loop over the frames, up to and including the first frame with a quit or return event. */
  function Run(ed: Editor, frames: seq<Frame>, fixed: bool): Option<Editor>
    decreases |frames|
  {
    if |frames| == 0 then Some(ed)
    else
      match Events(ed, frames[0].mouse, frames[0].events, fixed)
      case None => None
      case Some(ed') => if Stops(frames[0].events) then Some(ed') else Run(ed', frames[1..], fixed)
  }

  // ------------------------------------------------------------ invariants

  /** Teleporters come in pairs, none leads to itself, and the pending gate is not a teleporter. */
  ghost predicate Paired(ed: Editor) {
    Symmetric(ed.teleports) && Irreflexive(ed.teleports) &&
    (ed.pending.Some? ==> ed.pending.value !in ed.teleports)
  }

  /** Paired, and no teleporter and no pending gate is an obstacle. */
  ghost predicate Clean(ed: Editor) {
    Paired(ed) &&
    (forall c :: c in ed.teleports ==> c !in ed.obs) &&
    (ed.pending.Some? ==> ed.pending.value !in ed.obs)
  }

  /** On paired teleporters the teleporter handling never raises and keeps them paired. */
  lemma TeleporterPaired(ed: Editor, pos: Cell)
    requires Paired(ed)
    ensures ToggleTeleporter(ed, pos).Some? && Paired(ToggleTeleporter(ed, pos).value)
  {
    var r := ToggleTeleporter(ed, pos);
    if pos in ed.teleports {
      var t := ed.teleports;
      var b := t[pos];
      assert b in t && b != pos;
      var t' := r.value.teleports;
      forall x, y | x in t' && t'[x] == y ensures y in t' && t'[y] == x {
        assert t[x] == y && x != pos && x != b;
        assert t[y] == x;
        if y == pos || y == b {
          assert t[t[x]] == x;
        }
      }
    } else if ed.pending.Some? && ed.pending.value != pos {
      LinkKeeps(ed.teleports, ed.pending.value, pos);
    }
  }

  lemma ClickPaired(ed: Editor, pos: Cell, fixed: bool)
    requires Paired(ed)
    ensures Apply(ed, pos, MouseDown, fixed).Some? && Paired(Apply(ed, pos, MouseDown, fixed).value)
  {
    if ed.mode == TeleportMode && (pos in ed.teleports || pos !in ed.obs) {
      TeleporterPaired(ed, pos);
    }
  }

  /** With either guard the editor never raises and keeps its teleporters paired. */
  lemma {:induction false} RunPaired(ed: Editor, frames: seq<Frame>, fixed: bool)
    requires Paired(ed)
    ensures Run(ed, frames, fixed).Some? && Paired(Run(ed, frames, fixed).value)
    decreases |frames|
  {
    if |frames| > 0 {
      EventsPaired(ed, frames[0].mouse, frames[0].events, fixed);
      var ed' := Events(ed, frames[0].mouse, frames[0].events, fixed).value;
      if !Stops(frames[0].events) {
        RunPaired(ed', frames[1..], fixed);
      }
    }
  }

  lemma {:induction false} EventsPaired(ed: Editor, mouse: Cell, evs: seq<Event>, fixed: bool)
    requires Paired(ed)
    ensures Events(ed, mouse, evs, fixed).Some? && Paired(Events(ed, mouse, evs, fixed).value)
    decreases |evs|
  {
    if |evs| > 0 {
      if evs[0] == MouseDown {
        ClickPaired(ed, mouse, fixed);
      }
      EventsPaired(Apply(ed, mouse, evs[0], fixed).value, mouse, evs[1..], fixed);
    }
  }

  /** With the corrected guard every click keeps the map clean. */
  lemma ClickSafeClean(ed: Editor, pos: Cell)
    requires Clean(ed)
    ensures ClickSafe(ed, pos).Some? && Clean(ClickSafe(ed, pos).value)
  {
    if ed.mode == TeleportMode && (pos in ed.teleports || pos !in ed.obs) {
      TeleporterPaired(ed, pos);
      var r := ToggleTeleporter(ed, pos).value;
      forall c | c in r.teleports ensures c !in r.obs {
        assert c in ed.teleports || c == pos || Some(c) == ed.pending;
      }
    }
  }

  lemma {:induction false} EventsClean(ed: Editor, mouse: Cell, evs: seq<Event>)
    requires Clean(ed)
    ensures Events(ed, mouse, evs, true).Some? && Clean(Events(ed, mouse, evs, true).value)
    decreases |evs|
  {
    if |evs| > 0 {
      if evs[0] == MouseDown {
        ClickSafeClean(ed, mouse);
      }
      EventsClean(Apply(ed, mouse, evs[0], true).value, mouse, evs[1..]);
    }
  }

  /** With the corrected guard no run ever puts a teleporter on an obstacle. */
  lemma {:induction false} RunClean(ed: Editor, frames: seq<Frame>)
    requires Clean(ed)
    ensures Run(ed, frames, true).Some? && Clean(Run(ed, frames, true).value)
    decreases |frames|
  {
    if |frames| > 0 {
      EventsClean(ed, frames[0].mouse, frames[0].events);
      var ed' := Events(ed, frames[0].mouse, frames[0].events, true).value;
      if !Stops(frames[0].events) {
        RunClean(ed', frames[1..]);
      }
    }
  }

  /**
   * As written, the obstacle guard lets the pending gate through: mark a
   * as pending, switch to obstacle mode, make a an obstacle, switch back
   * and click b. The clean empty map ends with a linked to b while a is an
   * obstacle.
   */
  lemma PendingGateBecomesObstacle()
    ensures var a, b := (1, 1), (2, 2);
      var ed := Editor({}, map[], ObstacleMode, None);
      var frames := [Frame(a, [KeyT, MouseDown, KeyT, MouseDown, KeyT]), Frame(b, [MouseDown])];
      Clean(ed) && Run(ed, frames, false) == Some(Editor({a}, map[a := b, b := a], TeleportMode, None)) &&
      !Clean(Run(ed, frames, false).value) && Run(ed, frames, true).Some? && Clean(Run(ed, frames, true).value)
  {
    var a, b := (1, 1), (2, 2);
    var ed := Editor({}, map[], ObstacleMode, None);
    var e1 := Editor({}, map[], TeleportMode, Some(a));
    var e2 := Editor({a}, map[], TeleportMode, Some(a));
    var s1, s2, s3, s4 := [MouseDown, KeyT, MouseDown, KeyT], [KeyT, MouseDown, KeyT], [MouseDown, KeyT], [KeyT];
    assert Events(e2.(mode := ObstacleMode), a, s4, false) == Some(e2) by {
      assert s4[1..] == [];
    }
    assert Events(e1.(mode := ObstacleMode), a, s3, false) == Some(e2) by {
      assert s3[1..] == s4;
      assert ToggleObstacle(e1.(mode := ObstacleMode), a).obs == {a};
    }
    assert Events(e1, a, s2, false) == Some(e2) by {
      assert s2[1..] == s3;
    }
    assert Events(ed.(mode := TeleportMode), a, s1, false) == Some(e2) by {
      assert s1[1..] == s2;
    }
    assert Events(ed, a, [KeyT] + s1, false) == Some(e2) by {
      assert ([KeyT] + s1)[1..] == s1;
    }
    assert [KeyT] + s1 == [KeyT, MouseDown, KeyT, MouseDown, KeyT];
    assert Stops([MouseDown]) == false;
    var e3 := Editor({a}, map[a := b, b := a], TeleportMode, None);
    assert Events(e2, b, [MouseDown], false) == Some(e3) by {
      assert [MouseDown][1..] == [];
    }
    var frames := [Frame(a, [KeyT, MouseDown, KeyT, MouseDown, KeyT]), Frame(b, [MouseDown])];
    assert frames[1..] == [Frame(b, [MouseDown])];
    assert !Stops([KeyT, MouseDown, KeyT, MouseDown, KeyT]);
    assert Run(ed, frames, false) == Some(e3) by {
      assert Run(e2, frames[1..], false) == Run(e3, [], false);
    }
    RunClean(ed, frames);
  }

  // ------------------------------------------------------------ saving

  /** Python's comparison of [x1, y1] with [x2, y2]. */
  predicate Less(a: Cell, b: Cell) {
    a.0 < b.0 || (a.0 == b.0 && a.1 < b.1)
  }

  /** keys is the teleporter dict's iteration order: each key exactly once. */
  ghost predicate Enumerates(keys: seq<Cell>, t: map<Cell, Cell>) {
    NoDup(keys) && forall c :: c in keys <==> c in t
  }

  /**
   * save_map's teleports list: [k, v] for each entry, in key order, kept
   * only when k comes before v, so each linked pair is written once.
   */
  function SavePairs(t: map<Cell, Cell>, keys: seq<Cell>): (pairs: seq<seq<Cell>>)
    requires forall c :: c in keys ==> c in t
    ensures forall j :: 0 <= j < |pairs| ==>
      |pairs[j]| == 2 && pairs[j][0] in keys && t[pairs[j][0]] == pairs[j][1] && Less(pairs[j][0], pairs[j][1])
    ensures forall k :: k in keys && Less(k, t[k]) ==> [k, t[k]] in pairs
    ensures NoDup(keys) ==> forall i, j :: 0 <= i < j < |pairs| ==> pairs[i][0] != pairs[j][0]
  {
    if |keys| == 0 then []
    else
      var rest := SavePairs(t, keys[1..]);
      assert forall k :: k in keys <==> k == keys[0] || k in keys[1..];
      if Less(keys[0], t[keys[0]]) then
        var p := [[keys[0], t[keys[0]]]] + rest;
        assert forall j :: 1 <= j < |p| ==> p[j] == rest[j - 1];
        p
      else rest
  }

  /** Written pairs of a paired map share no cell. */
  lemma SavedDisjoint(t: map<Cell, Cell>, keys: seq<Cell>)
    requires Symmetric(t) && Irreflexive(t) && Enumerates(keys, t)
    ensures Disjoint(SavePairs(t, keys))
  {
    var pairs := SavePairs(t, keys);
    forall j, k | 0 <= j < k < |pairs|
      ensures pairs[j][0] != pairs[k][0] && pairs[j][0] != pairs[k][1] &&
        pairs[j][1] != pairs[k][0] && pairs[j][1] != pairs[k][1]
    {
      var a, b := pairs[j][0], pairs[k][0];
      assert t[t[a]] == a && t[t[b]] == b;
    }
  }

  /** Every teleporter of a paired map is written, as the first or the second cell of its pair. */
  lemma SavedEntry(t: map<Cell, Cell>, keys: seq<Cell>, c: Cell)
    requires Symmetric(t) && Irreflexive(t) && Enumerates(keys, t) && c in t
    ensures exists j :: (0 <= j < |SavePairs(t, keys)| &&
      (SavePairs(t, keys)[j] == [c, t[c]] || SavePairs(t, keys)[j] == [t[c], c]))
  {
    var pairs := SavePairs(t, keys);
    var d := t[c];
    assert t[d] == c && d in keys && c in keys;
    if Less(c, d) {
      assert [c, d] in pairs;
    } else {
      assert Less(d, c);
      assert [d, c] in pairs;
    }
  }

  lemma PartnerIn(t: map<Cell, Cell>, x: Cell)
    requires Symmetric(t) && x in t
    ensures t[x] in t && t[t[x]] == x
  {
  }

  /** Every teleporter is loaded back with its partner. */
  lemma LoadedCovers(t: map<Cell, Cell>, keys: seq<Cell>)
    requires Symmetric(t) && Irreflexive(t) && Enumerates(keys, t)
    ensures forall c :: c in t ==> c in LoadTeleports(SavePairs(t, keys)) && LoadTeleports(SavePairs(t, keys))[c] == t[c]
  {
    var pairs := SavePairs(t, keys);
    SavedDisjoint(t, keys);
    LoadDisjoint(pairs);
    forall c | c in t ensures c in LoadTeleports(pairs) && LoadTeleports(pairs)[c] == t[c] {
      SavedEntry(t, keys, c);
      var j :| 0 <= j < |pairs| && (pairs[j] == [c, t[c]] || pairs[j] == [t[c], c]);
      assert Listed(pairs, c);
    }
  }

  /** Nothing but teleporters is loaded back. */
  lemma LoadedWithin(t: map<Cell, Cell>, keys: seq<Cell>)
    requires Symmetric(t) && Enumerates(keys, t)
    ensures forall c :: c in LoadTeleports(SavePairs(t, keys)) ==> c in t
  {
    var pairs := SavePairs(t, keys);
    forall c | c in LoadTeleports(pairs) ensures c in t {
      var k :| 0 <= k < |pairs| && |pairs[k]| == 2 && (c == pairs[k][0] || c == pairs[k][1]);
      var x := pairs[k][0];
      assert x in keys && t[x] == pairs[k][1];
      PartnerIn(t, x);
    }
  }

  /** Loading what save_map writes gives back the paired teleporter map. */
  lemma SaveLoad(t: map<Cell, Cell>, keys: seq<Cell>)
    requires Symmetric(t) && Irreflexive(t) && Enumerates(keys, t)
    ensures LoadTeleports(SavePairs(t, keys)) == t
  {
    LoadedCovers(t, keys);
    LoadedWithin(t, keys);
  }
}
