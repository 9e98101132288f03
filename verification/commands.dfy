/** The command loop of `execute_commands`: `.DC` resolves and validates a
    sweep target, `.PRINT`/`.PLOT` checks its `V(name)` argument and runs the
    sweep. Each command is split into tokens as `strtok` with the delimiters
    space, carriage return, tab and newline splits it. */
module Commands {
  import opened Circuit
  import opened Sweep

  datatype Option<T> = None | Some(value: T)

  predicate IsDelimiter(c: char) {
    c == ' ' || c == '\r' || c == '\t' || c == '\n'
  }

  predicate IsWord(t: string) {
    |t| > 0 && forall i | 0 <= i < |t| :: !IsDelimiter(t[i])
  }

  /** Length of the token at the head of `s`. */
  function WordLength(s: string): (n: nat)
    ensures n <= |s|
    ensures forall i | 0 <= i < n :: !IsDelimiter(s[i])
    ensures n < |s| ==> IsDelimiter(s[n])
  {
    if s == [] || IsDelimiter(s[0]) then 0 else 1 + WordLength(s[1..])
  }

  /** The successive results of `strtok` on `s`: the maximal runs of
      non-delimiters, in order. */
  function Tokens(s: string): (ts: seq<string>)
    ensures forall i | 0 <= i < |ts| :: IsWord(ts[i])
    decreases |s|
  {
    if s == [] then []
    else if IsDelimiter(s[0]) then Tokens(s[1..])
    else
      var n := WordLength(s);
      [s[..n]] + Tokens(s[n..])
  }

  lemma WordThenRest(w: string, rest: string)
    requires IsWord(w)
    requires rest == [] || IsDelimiter(rest[0])
    ensures Tokens(w + rest) == [w] + Tokens(rest)
    decreases |w|
  {
    assert (w + rest)[0] == w[0];
    WordLengthOf(w, rest);
    assert (w + rest)[..|w|] == w;
    assert (w + rest)[|w|..] == rest;
  }

  lemma {:induction false} WordLengthOf(w: string, rest: string)
    requires forall i | 0 <= i < |w| :: !IsDelimiter(w[i])
    requires rest == [] || IsDelimiter(rest[0])
    ensures WordLength(w + rest) == |w|
    decreases |w|
  {
    if w != [] {
      assert (w + rest)[1..] == w[1..] + rest;
      WordLengthOf(w[1..], rest);
    } else {
      assert w + rest == rest;
    }
  }

  /** A run of delimiters, possibly empty. */
  predicate IsGap(g: string) {
    forall i | 0 <= i < |g| :: IsDelimiter(g[i])
  }

  /** Words laid out between gaps: `gaps[0]` before the first word,
      `gaps[i]` between words i - 1 and i, and the last gap after the last
      word. */
  function Spaced(ws: seq<string>, gaps: seq<string>): string
    requires |gaps| == |ws| + 1
    decreases |ws|
  {
    if ws == [] then gaps[0] else gaps[0] + ws[0] + Spaced(ws[1..], gaps[1..])
  }

  /** A layout of a line: words free of delimiters, gaps made of
      delimiters, and at least one delimiter between two words. */
  predicate Layout(ws: seq<string>, gaps: seq<string>) {
    && |gaps| == |ws| + 1
    && (forall i | 0 <= i < |ws| :: IsWord(ws[i]))
    && (forall i | 0 <= i < |gaps| :: IsGap(gaps[i]))
    && (forall i | 0 < i < |ws| :: |gaps[i]| > 0)
  }

  /** Leading delimiters produce no token. */
  lemma {:induction false} TokensAfterGap(g: string, s: string)
    requires IsGap(g)
    ensures Tokens(g + s) == Tokens(s)
    decreases |g|
  {
    if g == [] {
      assert g + s == s;
    } else {
      assert (g + s)[0] == g[0];
      assert (g + s)[1..] == g[1..] + s;
      TokensAfterGap(g[1..], s);
    }
  }

  /** A laid-out line is empty or starts with a delimiter when its first gap
      is non-empty or it has no word. */
  lemma SpacedStart(ws: seq<string>, gaps: seq<string>)
    requires Layout(ws, gaps) && (ws == [] || |gaps[0]| > 0)
    ensures Spaced(ws, gaps) == [] || IsDelimiter(Spaced(ws, gaps)[0])
  {
    if ws != [] {
      assert Spaced(ws, gaps)[0] == gaps[0][0];
    }
  }

  /** `strtok` splits any layout of words back into the words, whatever
      delimiters separate them and whatever surrounds them. */
  lemma {:induction false} TokensOfSpaced(ws: seq<string>, gaps: seq<string>)
    requires Layout(ws, gaps)
    ensures Tokens(Spaced(ws, gaps)) == ws
    decreases |ws|
  {
    if ws == [] {
      TokensAfterGap(gaps[0], []);
      assert gaps[0] + [] == gaps[0];
    } else {
      var rest := Spaced(ws[1..], gaps[1..]);
      assert Layout(ws[1..], gaps[1..]) by {
        assert forall i | 0 <= i < |ws| - 1 :: ws[1..][i] == ws[i + 1];
        assert forall i | 0 <= i < |gaps| - 1 :: gaps[1..][i] == gaps[i + 1];
      }
      SpacedStart(ws[1..], gaps[1..]);
      assert gaps[0] + ws[0] + rest == gaps[0] + (ws[0] + rest);
      TokensAfterGap(gaps[0], ws[0] + rest);
      WordThenRest(ws[0], rest);
      TokensOfSpaced(ws[1..], gaps[1..]);
    }
  }

  /** Every line is a layout of its tokens: together with `TokensOfSpaced`,
      the tokens are the one word list the line lays out, that is, its
      maximal runs of non-delimiters in order. */
  lemma {:induction false} SpacedTokens(s: string) returns (gaps: seq<string>)
    ensures Layout(Tokens(s), gaps) && Spaced(Tokens(s), gaps) == s
    decreases |s|
  {
    if s == [] {
      gaps := [""];
    } else if IsDelimiter(s[0]) {
      var g := SpacedTokens(s[1..]);
      gaps := GapGrows(s[0], s[1..], Tokens(s[1..]), g);
      assert s == [s[0]] + s[1..];
    } else {
      var n := WordLength(s);
      var g := SpacedTokens(s[n..]);
      assert s == s[..n] + s[n..];
      WordThenRest(s[..n], s[n..]);
      gaps := WordInFront(s[..n], s[n..], Tokens(s[n..]), g);
    }
  }

  /** A delimiter in front of a layout joins its first gap. */
  lemma GapGrows(c: char, t: string, ws: seq<string>, g: seq<string>) returns (gaps: seq<string>)
    requires IsDelimiter(c) && Layout(ws, g) && Spaced(ws, g) == t
    ensures Layout(ws, gaps) && Spaced(ws, gaps) == [c] + t
  {
    gaps := [[c] + g[0]] + g[1..];
    assert gaps[1..] == g[1..];
    if ws != [] {
      assert Spaced(ws, gaps) == [c] + (g[0] + ws[0] + Spaced(ws[1..], g[1..]));
    }
  }

  /** A word in front of a layout that is empty or starts with a delimiter
      becomes its first word, after an empty gap. */
  lemma WordInFront(w: string, t: string, ws: seq<string>, g: seq<string>) returns (gaps: seq<string>)
    requires IsWord(w) && (t == [] || IsDelimiter(t[0]))
    requires Layout(ws, g) && Spaced(ws, g) == t
    ensures Layout([w] + ws, gaps) && Spaced([w] + ws, gaps) == w + t
  {
    gaps := [""] + g;
    assert ([w] + ws)[1..] == ws;
    assert gaps[1..] == g;
    assert Spaced([w] + ws, gaps) == "" + w + t;
    if ws != [] {
      assert (g[0] + ws[0] + Spaced(ws[1..], g[1..]))[|g[0]|] == ws[0][0];
    }
    assert forall i | 0 < i < |ws| + 1 :: gaps[i] == g[i - 1];
  }

  /** `strncmp(s, p, |p|) == 0`. */
  predicate StartsWith(s: string, p: string) {
    |p| <= |s| && s[..|p|] == p
  }

  // ---------------------------------------------------------------------
  // .DC

  /** Position of the first element of `es` with the given name and type. */
  function FirstMatch(es: seq<Element>, name: string, kind: Kind): (r: Option<nat>)
    ensures r.Some? ==> r.value < |es| && es[r.value].name == name && es[r.value].kind == kind
    ensures r.Some? ==> forall i | 0 <= i < r.value :: !(es[i].name == name && es[i].kind == kind)
    ensures r.None? ==> forall i | 0 <= i < |es| :: !(es[i].name == name && es[i].kind == kind)
    decreases |es|
  {
    if es == [] then None
    else if es[0].name == name && es[0].kind == kind then Some(0)
    else match FirstMatch(es[1..], name, kind)
      case None => None
      case Some(i) => Some(i + 1)
  }

  /** The search loop of the `.DC` lookup: the first element with the
      given name and type, or none. */
  method FindSource(es: seq<Element>, name: string, kind: Kind) returns (r: Option<nat>)
    ensures r == FirstMatch(es, name, kind)
  {
    var k := 0;
    while k < |es|
      invariant 0 <= k <= |es|
      invariant forall i | 0 <= i < k :: !(es[i].name == name && es[i].kind == kind)
    {
      if es[k].name == name && es[k].kind == kind {
        FirstMatchIs(es, name, kind, k);
        return Some(k);
      }
      k := k + 1;
    }
    FirstMatchNone(es, name, kind);
    return None;
  }

  lemma {:induction false} FirstMatchIs(es: seq<Element>, name: string, kind: Kind, k: nat)
    requires k < |es| && es[k].name == name && es[k].kind == kind
    requires forall i | 0 <= i < k :: !(es[i].name == name && es[i].kind == kind)
    ensures FirstMatch(es, name, kind) == Some(k)
    decreases k
  {
    if k > 0 {
      assert !(es[0].name == name && es[0].kind == kind);
      assert forall i | 0 <= i < k - 1 :: es[1..][i] == es[i + 1];
      FirstMatchIs(es[1..], name, kind, k - 1);
    }
  }

  lemma {:induction false} FirstMatchNone(es: seq<Element>, name: string, kind: Kind)
    requires forall i | 0 <= i < |es| :: !(es[i].name == name && es[i].kind == kind)
    ensures FirstMatch(es, name, kind) == None
    decreases |es|
  {
    if es != [] {
      assert !(es[0].name == name && es[0].kind == kind);
      assert forall i | 0 <= i < |es| - 1 :: es[1..][i] == es[i + 1];
      FirstMatchNone(es[1..], name, kind);
    }
  }

  /** The sweep target `var_found` names, with the element's position. */
  datatype Target = NotFound | Current(k: nat) | Voltage(k: nat)

  /** The element a `.DC` token names: `I<name>` a current source of the
      first list, otherwise `V<name>` a voltage source of the second, the
      type letter in either case. */
  function Lookup(token: string, group1: seq<Element>, group2: seq<Element>): (t: Target)
    requires |token| > 0
    ensures t.Current? ==> Upper(token[0]) == 'I' && FirstMatch(group1, token[1..], I) == Some(t.k)
    ensures t.Voltage? ==> Upper(token[0]) == 'V' && FirstMatch(group2, token[1..], V) == Some(t.k)
    ensures t == NotFound <==>
              (Upper(token[0]) != 'I' || FirstMatch(group1, token[1..], I) == None)
              && (Upper(token[0]) != 'V' || FirstMatch(group2, token[1..], V) == None)
  {
    if Upper(token[0]) == 'I' && FirstMatch(group1, token[1..], I).Some? then
      Current(FirstMatch(group1, token[1..], I).value)
    else if Upper(token[0]) == 'V' && FirstMatch(group2, token[1..], V).Some? then
      Voltage(FirstMatch(group2, token[1..], V).value)
    else NotFound
  }

  /** A target that names a sweepable source of the lists. */
  predicate Resolves(t: Target, group1: seq<Element>, group2: seq<Element>) {
    match t
    case NotFound => true
    case Current(k) => k < |group1| && group1[k].kind == I
    case Voltage(k) => k < |group2| && group2[k].kind == V
  }

  /** The locals of `execute_commands` that outlive one command:
      `var_found` (with the element found), whether `var_name` is set, and
      the sweep range. */
  datatype DcState = DcState(target: Target, named: bool, start: real, end: real, jump: real)

  const Idle: DcState := DcState(NotFound, false, 0.0, 0.0, 0.0)

  /** What a `.DC` command does to the state before its arguments are read:
      a previous name is dropped and the range zeroed. */
  function Cleared(st: DcState): DcState {
    if st.named then st.(named := false, start := 0.0, end := 0.0, jump := 0.0) else st
  }

  /** A `.DC` command the handler accepts: exactly five tokens, a known
      source, and three numbers. */
  predicate Accepted(cmd: string, group1: seq<Element>, group2: seq<Element>, parse: string -> Option<real>) {
    var ts := Tokens(cmd);
    && |ts| == 5
    && Lookup(ts[1], group1, group2) != NotFound
    && parse(ts[2]).Some? && parse(ts[3]).Some? && parse(ts[4]).Some?
  }

  /** The effect of one `.DC` command on the state. With fewer than two
      tokens it is skipped after clearing; otherwise the target is looked up
      (and kept even when a later argument is rejected); the name is set
      exactly when the command is accepted, and then the range holds the
      three numbers. A rejected number leaves the previous one in place. */
  function DcStep(st: DcState, cmd: string, group1: seq<Element>, group2: seq<Element>,
                  parse: string -> Option<real>): (st': DcState)
    ensures |Tokens(cmd)| < 2 ==> st' == Cleared(st)
    ensures |Tokens(cmd)| >= 2 ==> st'.target == Lookup(Tokens(cmd)[1], group1, group2)
    ensures st'.named <==> Accepted(cmd, group1, group2, parse)
    ensures st'.named ==>
              && st'.start == parse(Tokens(cmd)[2]).value
              && st'.end == parse(Tokens(cmd)[3]).value
              && st'.jump == parse(Tokens(cmd)[4]).value
    ensures Resolves(st.target, group1, group2) ==> Resolves(st'.target, group1, group2)
  {
    var ts := Tokens(cmd);
    var c := Cleared(st);
    if |ts| < 2 then c
    else
      var t := Lookup(ts[1], group1, group2);
      var c := c.(target := t);
      if t == NotFound then c
      else if |ts| < 3 || parse(ts[2]).None? then c
      else
        var c := c.(start := parse(ts[2]).value);
        if |ts| < 4 || parse(ts[3]).None? then c
        else
          var c := c.(end := parse(ts[3]).value);
          if |ts| < 5 || parse(ts[4]).None? then c
          else c.(jump := parse(ts[4]).value, named := |ts| == 5)
  }

  /** The `.DC` branch of `execute_commands`, with its search loops. */
  method ExecuteDc(st: DcState, cmd: string, group1: seq<Element>, group2: seq<Element>,
                   parse: string -> Option<real>) returns (st': DcState)
    ensures st' == DcStep(st, cmd, group1, group2, parse)
  {
    var ts := Tokens(cmd);
    st' := Cleared(st);
    // the command name, then the source name
    if |ts| < 2 {
      return;
    }
    st' := st'.(target := NotFound);
    var token := ts[1];
    if Upper(token[0]) == 'I' {
      var r := FindSource(group1, token[1..], I);
      if r.Some? {
        st' := st'.(target := Current(r.value));
      }
    }
    if st'.target == NotFound && Upper(token[0]) == 'V' {
      var r := FindSource(group2, token[1..], V);
      if r.Some? {
        st' := st'.(target := Voltage(r.value));
      }
    }
    if st'.target == NotFound {
      return;
    }
    st' := st'.(named := true);
    // start, end and step
    if |ts| < 3 || parse(ts[2]).None? {
      st' := st'.(named := false);
      return;
    }
    st' := st'.(start := parse(ts[2]).value);
    if |ts| < 4 || parse(ts[3]).None? {
      st' := st'.(named := false);
      return;
    }
    st' := st'.(end := parse(ts[3]).value);
    if |ts| < 5 || parse(ts[4]).None? {
      st' := st'.(named := false);
      return;
    }
    st' := st'.(jump := parse(ts[4]).value);
    // no further arguments
    if |ts| > 5 {
      st' := st'.(named := false);
    }
  }

  // ---------------------------------------------------------------------
  // .PRINT / .PLOT

  /** The `V(name)` form of a print argument, the `V` in either case. */
  predicate IsNodeProbe(t: string) {
    |t| >= 3 && Upper(t[0]) == 'V' && t[1] == '(' && t[|t| - 1] == ')'
  }

  /** The node name inside `V(...)`. */
  function ProbeName(t: string): (n: string)
    requires IsNodeProbe(t)
    ensures |n| + 3 == |t|
    ensures t == [t[0]] + "(" + n + ")"
  {
    t[2..|t| - 1]
  }

  function Probe(name: string): string {
    "V(" + name + ")"
  }

  /** `V(name)` is a probe argument and names `name`. */
  lemma ProbeRoundTrip(name: string)
    ensures IsNodeProbe(Probe(name))
    ensures ProbeName(Probe(name)) == name
  {
    assert Probe(name)[2..|Probe(name)| - 1] == name;
  }

  /** What the `.PRINT`/`.PLOT` branch decides before any file is opened. */
  datatype PrintOutcome =
    | Skip(st: DcState)  // the command is bypassed
    | NullName           // the sweep is reached with `var_name` cleared
    | Run(node: nat)     // the sweep runs, observing this node

  /** The argument checks of the `.PRINT`/`.PLOT` branch, as written: with
      no target the command is ignored; a missing or malformed argument, an
      unknown node or an extra token skip it and clear the name but keep the
      target; otherwise the sweep is reached, whether or not a name is
      set. */
  function PrintCheck(st: DcState, cmd: string, nodes: map<string, nat>): (out: PrintOutcome)
    ensures st.target == NotFound ==> out == Skip(st)
    ensures out.Skip? ==> out.st.target == st.target && (out.st == st || !out.st.named)
    ensures !out.Skip? <==>
              && st.target != NotFound && |Tokens(cmd)| == 2 && IsNodeProbe(Tokens(cmd)[1])
              && ProbeName(Tokens(cmd)[1]) in nodes
    ensures out.Run? ==> st.named && out.node == nodes[ProbeName(Tokens(cmd)[1])]
    ensures out.NullName? ==> !st.named
  {
    var ts := Tokens(cmd);
    if st.target == NotFound then Skip(st)
    else if |ts| < 2 || !IsNodeProbe(ts[1]) || ProbeName(ts[1]) !in nodes || |ts| > 2 then
      Skip(st.(named := false))
    else if !st.named then NullName
    else Run(nodes[ProbeName(ts[1])])
  }

  /** The checks with the evidently intended guard: the sweep runs only
      while the name of an accepted `.DC` is set. */
  function PrintStep(st: DcState, cmd: string, nodes: map<string, nat>): (out: PrintOutcome)
    ensures !out.NullName?
    ensures out.Skip? ==> out.st.target == st.target && (out.st == st || !out.st.named)
    ensures out.Run? <==> st.named && PrintCheck(st, cmd, nodes).Run?
    ensures out.Run? ==> out == PrintCheck(st, cmd, nodes)
  {
    if !st.named then Skip(st) else PrintCheck(st, cmd, nodes)
  }

  // ---------------------------------------------------------------------
  // The command loop

  /** Whether the sweep loop of the target ends: with a positive step, or
      with a start already at or past the loop bound, when it makes no pass
      at all. Any other range keeps `execute_commands` in the loop for ever. */
  predicate Ends(st: DcState) {
    match st.target
    case NotFound => true
    case Current(_) => st.jump > 0.0 || st.start >= st.end + CurrentTolerance
    case Voltage(_) => st.jump > 0.0 || st.start >= st.end + VoltageTolerance
  }

  /** The solves one `.PRINT`/`.PLOT` asks for: the source of the target
      set to each sample of the `.DC` range, with the tolerance of its type. */
  function SweepLog(st: DcState, group1: seq<Element>, group2: seq<Element>, totalIds: nat): seq<Solve>
    requires totalIds >= 1 && Resolves(st.target, group1, group2) && Ends(st)
  {
    match st.target
    case NotFound => []
    case Current(k) => CurrentLog(group1, group2, totalIds, k, Samples(st.start, st.end + CurrentTolerance, st.jump))
    case Voltage(k) => VoltageLog(group1, group2, totalIds, k, Samples(st.start, st.end + VoltageTolerance, st.jump))
  }

  /** A state the loop can be in: the target names a source, and a set name
      comes with a target. */
  predicate Armed(st: DcState, group1: seq<Element>, group2: seq<Element>) {
    && Resolves(st.target, group1, group2)
    && (st.named ==> st.target != NotFound)
  }

  /** The solves a command list produces from state `st`, or `None` when it
      never finishes: each `.DC` updates the state, each `.PRINT`/`.PLOT`
      that passes its checks runs the sweep (for ever when the sweep does not
      end), and every other command is ignored. */
  function ScriptLog(st: DcState, cmds: seq<string>, group1: seq<Element>, group2: seq<Element>,
                     totalIds: nat, nodes: map<string, nat>, parse: string -> Option<real>): Option<seq<Solve>>
    requires totalIds >= 1 && Armed(st, group1, group2)
    decreases |cmds|
  {
    if cmds == [] then Some([])
    else
      var c := cmds[0];
      if StartsWith(c, ".DC ") then
        ScriptLog(DcStep(st, c, group1, group2, parse), cmds[1..], group1, group2, totalIds, nodes, parse)
      else if StartsWith(c, ".PRINT ") || StartsWith(c, ".PLOT ") then
        var out := PrintStep(st, c, nodes);
        if out.Skip? then
          ScriptLog(out.st, cmds[1..], group1, group2, totalIds, nodes, parse)
        else if !Ends(st) then None
        else match ScriptLog(st, cmds[1..], group1, group2, totalIds, nodes, parse)
          case None => None
          case Some(rest) => Some(SweepLog(st, group1, group2, totalIds) + rest)
      else
        ScriptLog(st, cmds[1..], group1, group2, totalIds, nodes, parse)
  }

  /** Without a `.DC` command no sweep runs, and the list finishes. */
  lemma {:induction false} NoSweepWithoutDc(cmds: seq<string>, group1: seq<Element>, group2: seq<Element>,
                                            totalIds: nat, nodes: map<string, nat>, parse: string -> Option<real>)
    requires totalIds >= 1
    requires forall i | 0 <= i < |cmds| :: !StartsWith(cmds[i], ".DC ")
    ensures ScriptLog(Idle, cmds, group1, group2, totalIds, nodes, parse) == Some([])
    decreases |cmds|
  {
    if cmds != [] {
      assert forall i | 0 <= i < |cmds| - 1 :: cmds[1..][i] == cmds[i + 1];
      NoSweepWithoutDc(cmds[1..], group1, group2, totalIds, nodes, parse);
    }
  }

  /** Without a `.PRINT` or `.PLOT` command no sweep runs either, and the
      list finishes whatever ranges its `.DC` commands give. */
  lemma {:induction false} NoSweepWithoutPrint(st: DcState, cmds: seq<string>, group1: seq<Element>, group2: seq<Element>,
                                               totalIds: nat, nodes: map<string, nat>, parse: string -> Option<real>)
    requires totalIds >= 1 && Armed(st, group1, group2)
    requires forall i | 0 <= i < |cmds| :: !StartsWith(cmds[i], ".PRINT ") && !StartsWith(cmds[i], ".PLOT ")
    ensures ScriptLog(st, cmds, group1, group2, totalIds, nodes, parse) == Some([])
    decreases |cmds|
  {
    if cmds != [] {
      assert forall i | 0 <= i < |cmds| - 1 :: cmds[1..][i] == cmds[i + 1];
      var c := cmds[0];
      if StartsWith(c, ".DC ") {
        NoSweepWithoutPrint(DcStep(st, c, group1, group2, parse), cmds[1..], group1, group2, totalIds, nodes, parse);
      } else {
        NoSweepWithoutPrint(st, cmds[1..], group1, group2, totalIds, nodes, parse);
      }
    }
  }

  /** `execute_commands` on a built session, with the print guard of
      `PrintStep`, on a command list that finishes: the commands run in
      order, each sweep restores the sources and the right-hand side, and
      the solves are those of the command list. */
  method ExecuteCommands(s: Session, cmds: seq<string>, nodes: map<string, nat>, parse: string -> Option<real>)
    requires s.Valid() && ScriptLog(Idle, cmds, s.group1, s.group2, s.totalIds, nodes, parse).Some?
    modifies s, s.b
    ensures s.Valid() && s.group1 == old(s.group1) && s.group2 == old(s.group2)
    ensures !s.overwrites ==> s.b[..] == old(s.b[..])
    ensures s.solves == old(s.solves) + ScriptLog(Idle, cmds, s.group1, s.group2, s.totalIds, nodes, parse).value
  {
    var st := Idle;
    var i := 0;
    while i < |cmds|
      invariant 0 <= i <= |cmds|
      invariant s.Valid() && s.group1 == old(s.group1) && s.group2 == old(s.group2)
      invariant !s.overwrites ==> s.b[..] == old(s.b[..])
      invariant Armed(st, s.group1, s.group2)
      invariant ScriptLog(st, cmds[i..], s.group1, s.group2, s.totalIds, nodes, parse).Some?
      invariant old(s.solves) + ScriptLog(Idle, cmds, s.group1, s.group2, s.totalIds, nodes, parse).value
                == s.solves + ScriptLog(st, cmds[i..], s.group1, s.group2, s.totalIds, nodes, parse).value
    {
      st := CommandStep(s, st, cmds[i..], nodes, parse);
      assert cmds[i..][1..] == cmds[i + 1..];
      i := i + 1;
    }
  }

  /** One pass of the loop of `execute_commands`, on the head of `cmds`.
      A command cannot start with both `.DC ` and `.PRINT `/`.PLOT `, so at
      most one branch applies. */
  method CommandStep(s: Session, st: DcState, cmds: seq<string>, nodes: map<string, nat>,
                     parse: string -> Option<real>) returns (st': DcState)
    requires cmds != [] && s.Valid() && Armed(st, s.group1, s.group2)
    requires ScriptLog(st, cmds, s.group1, s.group2, s.totalIds, nodes, parse).Some?
    modifies s, s.b
    ensures s.Valid() && s.group1 == old(s.group1) && s.group2 == old(s.group2)
    ensures !s.overwrites ==> s.b[..] == old(s.b[..])
    ensures Armed(st', s.group1, s.group2)
    ensures ScriptLog(st', cmds[1..], s.group1, s.group2, s.totalIds, nodes, parse).Some?
    ensures old(s.solves) + ScriptLog(st, cmds, s.group1, s.group2, s.totalIds, nodes, parse).value
            == s.solves + ScriptLog(st', cmds[1..], s.group1, s.group2, s.totalIds, nodes, parse).value
  {
    var c := cmds[0];
    if StartsWith(c, ".DC ") {
      st' := ExecuteDc(st, c, s.group1, s.group2, parse);
    } else if StartsWith(c, ".PRINT ") || StartsWith(c, ".PLOT ") {
      st' := PrintCommand(s, st, c, nodes);
      ghost var out := PrintStep(st, c, nodes);
      if out.Run? {
        AppendAssoc(old(s.solves), SweepLog(st, s.group1, s.group2, s.totalIds),
                    ScriptLog(st, cmds[1..], s.group1, s.group2, s.totalIds, nodes, parse).value);
      }
    } else {
      st' := st;
    }
  }

  /** The `.PRINT`/`.PLOT` branch: the argument checks of `PrintStep`, then
      the sweep of the target's source. */
  method PrintCommand(s: Session, st: DcState, cmd: string, nodes: map<string, nat>) returns (st': DcState)
    requires s.Valid() && Armed(st, s.group1, s.group2)
    requires PrintStep(st, cmd, nodes).Run? ==> Ends(st)
    modifies s, s.b
    ensures s.Valid() && s.group1 == old(s.group1) && s.group2 == old(s.group2)
    ensures !s.overwrites ==> s.b[..] == old(s.b[..])
    ensures PrintStep(st, cmd, nodes).Skip? ==> st' == PrintStep(st, cmd, nodes).st && s.solves == old(s.solves)
    ensures PrintStep(st, cmd, nodes).Run? ==>
              st' == st && s.solves == old(s.solves) + SweepLog(st, s.group1, s.group2, s.totalIds)
  {
    var out := PrintStep(st, cmd, nodes);
    st' := st;
    if out.Skip? {
      st' := out.st;
      return;
    }
    match st.target
    case Current(k) =>
      s.SweepCurrent(k, st.start, st.end, st.jump);
    case Voltage(k) =>
      s.SweepVoltage(k, st.start, st.end, st.jump);
  }

  /** A `.DC` whose source is found but whose step is missing keeps the
      target and leaves the name cleared, and a following `.PRINT V(1)`
      then reaches the sweep with no name set. */
  lemma StaleTargetReachesNullName(nodes: map<string, nat>, parse: string -> Option<real>)
    requires "1" in nodes
    ensures DcStep(Idle, ".DC I1 0 5", [Element(I, "1", 1, 0, 1.0, 1.0)], [], parse).target == Current(0)
    ensures !DcStep(Idle, ".DC I1 0 5", [Element(I, "1", 1, 0, 1.0, 1.0)], [], parse).named
    ensures PrintCheck(DcStep(Idle, ".DC I1 0 5", [Element(I, "1", 1, 0, 1.0, 1.0)], [], parse),
                       ".PRINT V(1)", nodes) == NullName
  {
    var group1 := [Element(I, "1", 1, 0, 1.0, 1.0)];
    DcTokens();
    assert "I1"[1..] == "1";
    assert FirstMatch(group1, "1", I) == Some(0);
    assert Lookup("I1", group1, []) == Current(0);
    assert !Accepted(".DC I1 0 5", group1, [], parse);
    var st := DcStep(Idle, ".DC I1 0 5", group1, [], parse);
    assert st.target == Current(0) && !st.named;
    PrintTokens();
    ProbeRoundTrip("1");
  }

  lemma DcTokens()
    ensures Tokens(".DC I1 0 5") == [".DC", "I1", "0", "5"]
  {
    var ws, gaps := [".DC", "I1", "0", "5"], ["", " ", " ", " ", ""];
    assert Layout(ws, gaps);
    TokensOfSpaced(ws, gaps);
    assert Spaced(ws, gaps) == ".DC I1 0 5";
  }

  lemma PrintTokens()
    ensures Tokens(".PRINT V(1)") == [".PRINT", Probe("1")]
  {
    var ws, gaps := [".PRINT", "V(1)"], ["", " ", ""];
    assert Layout(ws, gaps);
    TokensOfSpaced(ws, gaps);
    assert Spaced(ws, gaps) == ".PRINT V(1)";
    assert Probe("1") == "V(1)";
  }
}
