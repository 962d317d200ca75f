/** The directions printed for a route: each edge of the route contributes the tokens of
    one turn of the printing loop, worked out from the line of that edge, the line of the
    edge before it and the station the edge leaves from; a final token names the station
    reached. */
module Instructions {

  /** One print statement: a station name ending a line of output, "Switch to the L
      line at S", or "Take the L line from S to " (completed by the next name). */
  datatype Token = Arrive(station: string) | Switch(line: string, at: string) | Take(line: string, from: string)

  datatype Kind = ArriveKind | SwitchKind | TakeKind

  /** The characters each token prints. */
  function Text(t: Token): (r: string)
    ensures |r| > 0 && r[|r| - 1] == (if t.Take? then ' ' else '\n')
  {
    match t
    case Arrive(s) => s + "\n"
    case Switch(l, s) => "Switch to the " + l + " line at " + s + "\n"
    case Take(l, s) => "Take the " + l + " line from " + s + " to "
  }

  function KindOf(t: Token): Kind {
    match t
    case Arrive(_) => ArriveKind
    case Switch(_, _) => SwitchKind
    case Take(_, _) => TakeKind
  }

  /** One turn of the loop, for an edge on `line` leaving `at` after an edge on `prev`
      ("" before the first edge): a change of line ends the current instruction with the
      name of `at` and announces the switch; a change of line, or the first edge, starts
      a "Take" instruction. */
  function StepTokens(prev: string, line: string, at: string): (r: seq<Token>)
    ensures prev == "" ==> r == [Take(line, at)]
    ensures prev != "" && prev == line ==> r == []
    ensures prev != "" && prev != line ==> r == [Arrive(at), Switch(line, at), Take(line, at)]
  {
    (if prev != line && prev != "" then [Arrive(at), Switch(line, at)] else [])
    + (if prev != line || prev == "" then [Take(line, at)] else [])
  }

  /** The tokens of the loop over edges on lines `lines`, leaving stations `ats`. */
  function Steps(lines: seq<string>, ats: seq<string>): (r: seq<Token>)
    requires |ats| == |lines|
    ensures lines == [] <==> r == []
    decreases |lines|
  {
    if lines == [] then []
    else
      var n := |lines|;
      Steps(lines[..n - 1], ats[..n - 1]) + StepTokens(if n == 1 then "" else lines[n - 2], lines[n - 1], ats[n - 1])
  }

  /** The tokens of one more edge follow those of the edges before it. */
  lemma StepsSnoc(lines: seq<string>, ats: seq<string>, line: string, at: string)
    requires |ats| == |lines|
    ensures Steps(lines + [line], ats + [at]) ==
            Steps(lines, ats) + StepTokens(if lines == [] then "" else lines[|lines| - 1], line, at)
  {
    var n := |lines| + 1;
    assert (lines + [line])[..n - 1] == lines && (ats + [at])[..n - 1] == ats;
  }

  /** Everything printed for a route whose edges lie on `lines` and which passes through
      `stops` (the origin first, the destination last). */
  function Itinerary(lines: seq<string>, stops: seq<string>): (r: seq<Token>)
    requires |stops| == |lines| + 1
    ensures lines == [] ==> r == [Arrive(stops[0])]
    ensures |r| > 0 && r[|r| - 1] == Arrive(stops[|lines|])
  {
    Steps(lines, stops[..|lines|]) + [Arrive(stops[|lines|])]
  }

  predicate NoEmptyName(lines: seq<string>) {
    forall k :: 0 <= k < |lines| ==> lines[k] != ""
  }

  /** The number of tokens of one kind. */
  function Count(ts: seq<Token>, k: Kind): (r: nat)
    ensures r <= |ts|
  {
    if ts == [] then 0 else (if KindOf(ts[0]) == k then 1 else 0) + Count(ts[1..], k)
  }

  lemma {:induction false} CountAppend(a: seq<Token>, b: seq<Token>, k: Kind)
    ensures Count(a + b, k) == Count(a, k) + Count(b, k)
  {
    if a == [] {
      assert a + b == b;
    } else {
      assert (a + b)[0] == a[0] && (a + b)[1..] == a[1..] + b;
      CountAppend(a[1..], b, k);
    }
  }

  /** The counts of the three tokens a switch prints. */
  lemma CountJoint(l: Leg, k: Kind)
    ensures Count([Arrive(l.from), Switch(l.line, l.from), Take(l.line, l.from)], k) == 1
  {
    var joint := [Arrive(l.from), Switch(l.line, l.from), Take(l.line, l.from)];
    assert joint[1..][1..][1..] == [];
    assert Count(joint[1..][1..], k) == if k == TakeKind then 1 else 0;
    assert Count(joint[1..], k) == if k == ArriveKind then 0 else 1;
  }

  /** The number of positions at which the line changes from one edge to the next. */
  function Changes(lines: seq<string>): (r: nat)
    ensures r < |lines| || lines == []
  {
    if |lines| <= 1 then 0
    else Changes(lines[..|lines| - 1]) + (if lines[|lines| - 1] != lines[|lines| - 2] then 1 else 0)
  }

  /** A stretch of the route spent on one line. */
  datatype Leg = Leg(line: string, from: string, to: string)

  /** Leg `k` ends where leg `k + 1` starts, and the two lie on different lines. */
  predicate Meets(legs: seq<Leg>, k: nat) {
    k + 1 < |legs| && legs[k].to == legs[k + 1].from && legs[k].line != legs[k + 1].line
  }

  /** Consecutive legs meet at a station and lie on different lines. */
  predicate Joined(legs: seq<Leg>) {
    forall k :: 0 <= k < |legs| - 1 ==> Meets(legs, k)
  }

  /** The route cut into maximal stretches on one line: an independent reading of what
      the directions describe. */
  function Legs(lines: seq<string>, stops: seq<string>): (r: seq<Leg>)
    requires |lines| >= 1 && |stops| == |lines| + 1
    ensures 1 <= |r| <= |lines|
    ensures r[0].line == lines[0] && r[0].from == stops[0]
    ensures r[|r| - 1].line == lines[|lines| - 1] && r[|r| - 1].to == stops[|lines|]
    decreases |lines|
  {
    var n := |lines|;
    if n == 1 then [Leg(lines[0], stops[0], stops[1])]
    else
      var ls := Legs(lines[..n - 1], stops[..n]);
      var last := ls[|ls| - 1];
      if last.line == lines[n - 1] then ls[..|ls| - 1] + [last.(to := stops[n])]
      else ls + [Leg(lines[n - 1], stops[n - 1], stops[n])]
  }

  /** Consecutive legs of a route meet at a station and lie on different lines. */
  lemma {:induction false} LegsJoined(lines: seq<string>, stops: seq<string>)
    requires |lines| >= 1 && |stops| == |lines| + 1
    ensures Joined(Legs(lines, stops))
    decreases |lines|
  {
    var n := |lines|;
    if n > 1 {
      var ls := Legs(lines[..n - 1], stops[..n]);
      LegsJoined(lines[..n - 1], stops[..n]);
      if ls[|ls| - 1].line == lines[n - 1] {
        JoinedRetarget(ls, stops[n], Legs(lines, stops));
      } else {
        JoinedSnoc(ls, Leg(lines[n - 1], stops[n - 1], stops[n]), Legs(lines, stops));
      }
    }
  }

  /** A leg on another line from where the last leg ends may follow it. */
  lemma JoinedSnoc(legs: seq<Leg>, l: Leg, legs': seq<Leg>)
    requires |legs| >= 1 && Joined(legs) && legs' == legs + [l]
    requires legs[|legs| - 1].to == l.from && legs[|legs| - 1].line != l.line
    ensures Joined(legs')
  {
    forall k | 0 <= k < |legs'| - 1 ensures Meets(legs', k) {
      if k < |legs| - 1 {
        assert Meets(legs, k);
      }
    }
  }

  /** The last leg may end somewhere else. */
  lemma JoinedRetarget(legs: seq<Leg>, t: string, legs': seq<Leg>)
    requires |legs| >= 1 && Joined(legs) && legs' == legs[..|legs| - 1] + [legs[|legs| - 1].(to := t)]
    ensures Joined(legs')
  {
    forall k | 0 <= k < |legs| - 1 ensures Meets(legs', k) {
      assert Meets(legs, k);
    }
  }

  /** The tokens leading up to the destination when the route is read as legs: one
      "Take" per leg, and the end of the previous instruction and a switch before every
      leg but the first. */
  function Render(legs: seq<Leg>): (r: seq<Token>)
    requires |legs| >= 1
    decreases |legs|
  {
    var n := |legs|;
    if n == 1 then [Take(legs[0].line, legs[0].from)]
    else Render(legs[..n - 1]) + [Arrive(legs[n - 1].from), Switch(legs[n - 1].line, legs[n - 1].from),
                                  Take(legs[n - 1].line, legs[n - 1].from)]
  }

  /** `Render` does not look at where the last leg ends. */
  lemma RenderIgnoresEnd(legs: seq<Leg>, t: string)
    requires |legs| >= 1
    ensures Render(legs[..|legs| - 1] + [legs[|legs| - 1].(to := t)]) == Render(legs)
  {
    var n := |legs|;
    var legs' := legs[..n - 1] + [legs[n - 1].(to := t)];
    assert legs'[..n - 1] == legs[..n - 1];
  }

  /** One more edge adds to the rendering what one more turn of the loop prints. */
  lemma {:induction false} RenderStep(lines: seq<string>, stops: seq<string>)
    requires |lines| >= 2 && |stops| == |lines| + 1
    requires lines[|lines| - 2] != "" && lines[|lines| - 1] != ""
    ensures var n := |lines|;
      Render(Legs(lines, stops)) ==
      Render(Legs(lines[..n - 1], stops[..n])) + StepTokens(lines[n - 2], lines[n - 1], stops[n - 1])
  {
    var n := |lines|;
    var ls := Legs(lines[..n - 1], stops[..n]);
    var last := ls[|ls| - 1];
    var step := StepTokens(lines[n - 2], lines[n - 1], stops[n - 1]);
    assert last.line == lines[n - 2];
    if last.line == lines[n - 1] {
      assert Legs(lines, stops) == ls[..|ls| - 1] + [last.(to := stops[n])];
      RenderIgnoresEnd(ls, stops[n]);
      assert step == [] && Render(ls) + step == Render(ls);
    } else {
      var l := Leg(lines[n - 1], stops[n - 1], stops[n]);
      var legs := ls + [l];
      assert Legs(lines, stops) == legs;
      assert legs[..|legs| - 1] == ls && legs[|legs| - 1] == l;
      assert step == [Arrive(l.from), Switch(l.line, l.from), Take(l.line, l.from)];
    }
  }

  /** A route of one edge is one leg, and the loop prints its "Take". */
  lemma {:induction false} SingleLeg(lines: seq<string>, stops: seq<string>)
    requires |lines| == 1 && |stops| == 2
    ensures Steps(lines, stops[..1]) == Render(Legs(lines, stops)) == [Take(lines[0], stops[0])]
  {
    assert Legs(lines, stops) == [Leg(lines[0], stops[0], stops[1])];
    assert Steps(lines, stops[..1]) == Steps([], []) + [Take(lines[0], stops[0])];
  }

  /** With no line named "", the loop prints exactly the rendering of the legs. */
  lemma {:induction false} StepsAreLegs(lines: seq<string>, stops: seq<string>)
    requires |lines| >= 1 && |stops| == |lines| + 1 && NoEmptyName(lines)
    ensures Steps(lines, stops[..|lines|]) == Render(Legs(lines, stops))
    decreases |lines|
  {
    var n := |lines|;
    if n == 1 {
      SingleLeg(lines, stops);
    } else {
      var pre, ats := lines[..n - 1], stops[..n];
      assert NoEmptyName(pre) by {
        forall k | 0 <= k < |pre| ensures pre[k] != "" {
          assert pre[k] == lines[k];
        }
      }
      StepsAreLegs(pre, ats);
      assert lines[n - 2] != "" && lines[n - 1] != "";
      RenderStep(lines, stops);
    }
  }

  /** One "Take" per leg, one switch, and one name before it, per leg after the first. */
  lemma {:induction false} RenderCounts(legs: seq<Leg>)
    requires |legs| >= 1
    ensures Count(Render(legs), TakeKind) == |legs|
    ensures Count(Render(legs), SwitchKind) == |legs| - 1
    ensures Count(Render(legs), ArriveKind) == |legs| - 1
    decreases |legs|
  {
    var n := |legs|;
    if n == 1 {
      assert Render(legs)[1..] == [];
    } else {
      RenderCounts(legs[..n - 1]);
      var l := legs[n - 1];
      var joint := [Arrive(l.from), Switch(l.line, l.from), Take(l.line, l.from)];
      CountJoint(l, TakeKind);
      CountJoint(l, SwitchKind);
      CountJoint(l, ArriveKind);
      CountAppend(Render(legs[..n - 1]), joint, TakeKind);
      CountAppend(Render(legs[..n - 1]), joint, SwitchKind);
      CountAppend(Render(legs[..n - 1]), joint, ArriveKind);
    }
  }

  /** A new leg starts exactly where the line changes. */
  lemma {:induction false} LegsCount(lines: seq<string>, stops: seq<string>)
    requires |lines| >= 1 && |stops| == |lines| + 1
    ensures |Legs(lines, stops)| == Changes(lines) + 1
    decreases |lines|
  {
    var n := |lines|;
    if n > 1 {
      LegsCount(lines[..n - 1], stops[..n]);
      assert lines[..n - 1][n - 2] == lines[n - 2];
    }
  }

  /** For a route of at least one edge and no line named "": one "Take" for the first
      edge plus one per switch, and as many switches as changes of line; edges that stay
      on a line print nothing. */
  lemma ItineraryCounts(lines: seq<string>, stops: seq<string>)
    requires |lines| >= 1 && |stops| == |lines| + 1 && NoEmptyName(lines)
    ensures Count(Itinerary(lines, stops), SwitchKind) == Changes(lines)
    ensures Count(Itinerary(lines, stops), TakeKind) == 1 + Count(Itinerary(lines, stops), SwitchKind)
    ensures Count(Itinerary(lines, stops), ArriveKind) == Changes(lines) + 1
  {
    StepsAreLegs(lines, stops);
    var legs := Legs(lines, stops);
    RenderCounts(legs);
    LegsCount(lines, stops);
    var last := [Arrive(stops[|lines|])];
    assert last[1..] == [];
    CountAppend(Render(legs), last, SwitchKind);
    CountAppend(Render(legs), last, TakeKind);
    CountAppend(Render(legs), last, ArriveKind);
  }

  /** The switch tokens, in order. */
  function SwitchesOf(ts: seq<Token>): (r: seq<Token>)
    ensures forall t :: t in r <==> t in ts && t.Switch?
  {
    if ts == [] then [] else (if ts[0].Switch? then [ts[0]] else []) + SwitchesOf(ts[1..])
  }

  lemma {:induction false} SwitchesAppend(a: seq<Token>, b: seq<Token>)
    ensures SwitchesOf(a + b) == SwitchesOf(a) + SwitchesOf(b)
  {
    if a == [] {
      assert a + b == b;
    } else {
      assert (a + b)[0] == a[0] && (a + b)[1..] == a[1..] + b;
      SwitchesAppend(a[1..], b);
    }
  }

  /** A switch to `lines[k]` at `ats[k]` for every position `k` where the line changes. */
  function ChangePoints(lines: seq<string>, ats: seq<string>): (r: seq<Token>)
    requires |ats| == |lines|
    ensures |r| == Changes(lines)
    decreases |lines|
  {
    var n := |lines|;
    if n <= 1 then []
    else ChangePoints(lines[..n - 1], ats[..n - 1]) + (if lines[n - 1] != lines[n - 2] then [Switch(lines[n - 1], ats[n - 1])] else [])
  }

  /** The switch one turn of the loop prints, if any. */
  lemma SwitchOfStep(prev: string, line: string, at: string)
    ensures SwitchesOf(StepTokens(prev, line, at)) == if prev != "" && prev != line then [Switch(line, at)] else []
  {
    var step := StepTokens(prev, line, at);
    if prev == "" {
      assert step[1..] == [];
    } else if prev != line {
      assert step[1..][1..][1..] == [];
      assert SwitchesOf(step[1..][1..]) == [];
      assert SwitchesOf(step[1..]) == [Switch(line, at)];
    }
  }

  /** With no line named "", a "Switch to the L line at S" is printed exactly when the
      edge leaving S lies on a line L other than the line of the edge before it. */
  lemma {:induction false} SwitchesAtChanges(lines: seq<string>, ats: seq<string>)
    requires |ats| == |lines| && NoEmptyName(lines)
    ensures SwitchesOf(Steps(lines, ats)) == ChangePoints(lines, ats)
    decreases |lines|
  {
    var n := |lines|;
    if n > 0 {
      var prev := if n == 1 then "" else lines[n - 2];
      var before := Steps(lines[..n - 1], ats[..n - 1]);
      assert Steps(lines, ats) == before + StepTokens(prev, lines[n - 1], ats[n - 1]);
      var pre := lines[..n - 1];
      assert NoEmptyName(pre) by {
        forall k | 0 <= k < |pre| ensures pre[k] != "" {
          assert pre[k] == lines[k];
        }
      }
      SwitchesAtChanges(lines[..n - 1], ats[..n - 1]);
      SwitchesAppend(before, StepTokens(prev, lines[n - 1], ats[n - 1]));
      SwitchOfStep(prev, lines[n - 1], ats[n - 1]);
    }
  }

  /** A line named "" defeats both tests: the edge after it starts a new "Take" though
      no switch or station name came between. */
  lemma EmptyLineName(a: string, b: string, c: string)
    ensures Itinerary(["", "Circle"], [a, b, c]) == [Take("", a), Take("Circle", b), Arrive(c)]
  {
    assert ["", "Circle"][..1] == [""];
    assert [a, b, c][..2][..1] == [a];
  }
}
