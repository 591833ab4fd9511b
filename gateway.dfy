/**
 * The host the tool drives: the commands it has issued so far, the state
 * file, and the way the system answers each command.  Every operation of
 * the tool is a method over one `Host`.
 */
module Gateway {
  import opened Wrappers
  import opened Text
  import opened State
  import opened Commands

  /** What a finished shell command hands back: its exit status and its standard output. */
  datatype Completed = Completed(returncode: int, stdout: string)

  /** How the system answers the command issued at a given position of the trace. */
  type Oracle = (nat, Cmd) -> Completed

  predicate Succeeds(o: Oracle, pos: nat, c: Cmd) {
    o(pos, c).returncode == 0
  }

  class Host {
    /** Every command issued so far, in order. */
    var trace: seq<Cmd>
    /** The state file; None while it does not exist. */
    var file: Option<Topology>
    const respond: Oracle

    constructor (file: Option<Topology>, respond: Oracle)
      ensures trace == [] && this.file == file && this.respond == respond
    {
      trace := [];
      this.file := file;
      this.respond := respond;
    }

    /** Runs one command; with `check`, a non-zero exit status raises. */
    method RunCommand(cmd: Cmd, check: bool) returns (result: Completed, raised: bool)
      modifies this`trace
      ensures trace == old(trace) + [cmd]
      ensures result == respond(|old(trace)|, cmd)
      ensures raised <==> check && !Succeeds(respond, |old(trace)|, cmd)
    {
      result := respond(|trace|, cmd);
      raised := check && result.returncode != 0;
      trace := trace + [cmd];
    }

    /** Reads the state file; a missing file reads as a topology without VPCs. */
    method LoadState() returns (t: Topology)
      ensures t == Loaded(file)
    {
      t := Loaded(file);
    }

    /** Replaces the state file as a whole. */
    method SaveState(t: Topology)
      modifies this`file
      ensures file == Some(t)
    {
      file := Some(t);
    }
  }

  // ---------------------------------------------------------------------
  // Checked plans

  /**
   * How many commands of `plan`, issued from trace position `pos`, succeed
   * before the first one that fails; `|plan|` when none fails.
   */
  function FirstFailure(o: Oracle, pos: nat, plan: seq<Cmd>): (k: nat)
    ensures k <= |plan|
    ensures forall i | 0 <= i < k :: Succeeds(o, pos + i, plan[i])
    ensures k < |plan| ==> !Succeeds(o, pos + k, plan[k])
  {
    FailureFrom(o, pos, plan, 0)
  }

  /** The first failing command of `plan` at index `i` or later; `|plan|` when none fails. */
  function FailureFrom(o: Oracle, pos: nat, plan: seq<Cmd>, i: nat): (k: nat)
    requires i <= |plan|
    ensures i <= k <= |plan|
    ensures forall j | i <= j < k :: Succeeds(o, pos + j, plan[j])
    ensures k < |plan| ==> !Succeeds(o, pos + k, plan[k])
    decreases |plan| - i
  {
    if i == |plan| then i
    else if !Succeeds(o, pos + i, plan[i]) then i
    else FailureFrom(o, pos, plan, i + 1)
  }

  /** The commands of a checked plan that are issued: up to and including the first failure. */
  function Attempted(plan: seq<Cmd>, k: nat): (issued: seq<Cmd>)
    requires k <= |plan|
    ensures k < |plan| ==> |issued| == k + 1
    ensures k == |plan| ==> issued == plan
    ensures issued <= plan
  {
    if k < |plan| then plan[..k + 1] else plan
  }

  /**
   * One step of a checked plan issued from `t0`: given that the first `i`
   * commands succeeded and were issued, the trace after the next one is the
   * next prefix of the plan, and whether it succeeded decides where the
   * plan stops.
   */
  lemma PlanStep(o: Oracle, t0: seq<Cmd>, plan: seq<Cmd>, i: nat)
    requires i < |plan| && FirstFailure(o, |t0|, plan) >= i
    ensures t0 + plan[..i] + [plan[i]] == t0 + plan[..i + 1]
    ensures Succeeds(o, |t0| + i, plan[i]) ==> FirstFailure(o, |t0|, plan) >= i + 1
    ensures !Succeeds(o, |t0| + i, plan[i]) ==> FirstFailure(o, |t0|, plan) == i
  {
    IssuedNext(t0, plan, i);
    FirstFailureNext(o, |t0|, plan, i);
  }

  lemma IssuedNext(t0: seq<Cmd>, plan: seq<Cmd>, i: nat)
    requires i < |plan|
    ensures t0 + plan[..i] + [plan[i]] == t0 + plan[..i + 1]
  {
    assert plan[..i + 1] == plan[..i] + [plan[i]];
  }

  lemma FirstFailureNext(o: Oracle, pos: nat, plan: seq<Cmd>, i: nat)
    requires i < |plan| && FirstFailure(o, pos, plan) >= i
    ensures Succeeds(o, pos + i, plan[i]) <==> FirstFailure(o, pos, plan) > i
  {
    var k := FirstFailure(o, pos, plan);
    if k == i {
      assert !Succeeds(o, pos + k, plan[k]);
    } else {
      assert Succeeds(o, pos + i, plan[i]);
    }
  }

  /** The first failure is the one index with every earlier command succeeding and itself failing. */
  lemma FirstFailureUnique(o: Oracle, pos: nat, plan: seq<Cmd>, k: nat)
    requires k <= |plan|
    requires forall i | 0 <= i < k :: Succeeds(o, pos + i, plan[i])
    requires k < |plan| ==> !Succeeds(o, pos + k, plan[k])
    ensures FirstFailure(o, pos, plan) == k
  {
  }

  /**
   * Running `a` and then `b` as one checked block: the block stops inside
   * `a` if `a` fails, and otherwise wherever `b`, started after `a`, stops.
   */
  lemma FirstFailureConcat(o: Oracle, pos: nat, a: seq<Cmd>, b: seq<Cmd>)
    ensures var ka := FirstFailure(o, pos, a);
      var k := FirstFailure(o, pos, a + b);
      (ka < |a| ==> k == ka && Attempted(a + b, k) == Attempted(a, ka)) &&
      (ka == |a| ==> k == |a| + FirstFailure(o, pos + |a|, b) &&
                     Attempted(a + b, k) == a + Attempted(b, FirstFailure(o, pos + |a|, b)))
  {
    var ka := FirstFailure(o, pos, a);
    var ab := a + b;
    if ka < |a| {
      forall i | 0 <= i < ka ensures Succeeds(o, pos + i, ab[i]) {
        assert ab[i] == a[i];
      }
      assert ab[ka] == a[ka];
      FirstFailureUnique(o, pos, ab, ka);
      assert ab[..ka + 1] == a[..ka + 1];
    } else {
      var kb := FirstFailure(o, pos + |a|, b);
      forall i | 0 <= i < |a| + kb ensures Succeeds(o, pos + i, ab[i]) {
        if i < |a| {
          assert ab[i] == a[i];
        } else {
          assert ab[i] == b[i - |a|];
          assert Succeeds(o, pos + |a| + (i - |a|), b[i - |a|]);
        }
      }
      if kb < |b| {
        assert ab[|a| + kb] == b[kb];
        assert !Succeeds(o, pos + |a| + kb, b[kb]);
      }
      FirstFailureUnique(o, pos, ab, |a| + kb);
      if kb < |b| {
        assert ab[..|a| + kb + 1] == a + b[..kb + 1];
      }
    }
  }

  /**
   * A checked command followed by a checked block is one checked block: it
   * stops at the command when that fails, and otherwise wherever the block,
   * started one position later, stops.
   */
  lemma FirstFailureCons(o: Oracle, pos: nat, c: Cmd, rest: seq<Cmd>)
    ensures var k := FirstFailure(o, pos, [c] + rest);
      var kr := FirstFailure(o, pos + 1, rest);
      (if Succeeds(o, pos, c) then [c] + Attempted(rest, kr) else [c]) == Attempted([c] + rest, k) &&
      (Succeeds(o, pos, c) && kr == |rest| <==> k == 1 + |rest|)
  {
    FirstFailureConcat(o, pos, [c], rest);
    if Succeeds(o, pos, c) {
      FirstFailureUnique(o, pos, [c], 1);
    } else {
      FirstFailureUnique(o, pos, [c], 0);
      assert Attempted([c], 0) == [c];
    }
  }

  lemma AppendAssoc(a: seq<Cmd>, b: seq<Cmd>, c: seq<Cmd>)
    ensures a + b + c == a + (b + c)
  {
  }

  /**
   * Consecutive checked `run_command` calls inside one `try`: the commands
   * are issued in order until one exits non-zero and raises; nothing after
   * it is issued.
   */
  method RunChecked(h: Host, plan: seq<Cmd>) returns (raised: bool)
    modifies h`trace
    ensures var k := FirstFailure(h.respond, |old(h.trace)|, plan);
      (raised <==> k < |plan|) && h.trace == old(h.trace) + Attempted(plan, k)
  {
    ghost var t0 := h.trace;
    var i := 0;
    while i < |plan|
      invariant 0 <= i <= |plan|
      invariant h.trace == t0 + plan[..i]
      invariant FirstFailure(h.respond, |t0|, plan) >= i
      decreases |plan| - i
    {
      var result;
      result, raised := h.RunCommand(plan[i], true);
      PlanStep(h.respond, t0, plan, i);
      if raised {
        return;
      }
      i := i + 1;
    }
    assert plan[..i] == plan;
    raised := false;
  }

  // ---------------------------------------------------------------------
  // The default interface

  function IsDev(w: string): bool {
    w == "dev"
  }

  lemma DevIsWord()
    ensures IsWord("dev")
  {
    var d := "dev";
    assert |d| == 3 && d[0] == 'd' && d[1] == 'e' && d[2] == 'v';
    assert forall i | 0 <= i < |d| :: !IsSpace(d[i]);
  }

  /** Word `k` of `ws` is its first `dev`, and a word follows it. */
  predicate FirstDevAt(ws: seq<string>, k: int) {
    0 <= k && k + 1 < |ws| && IsDev(ws[k]) && forall j | 0 <= j < k :: !IsDev(ws[j])
  }

  /** The word after the first `dev` of `ip route show default`, if there is one. */
  function InterfaceFromRoute(output: string): (r: Option<string>)
    ensures r.Some? <==> exists k | 0 <= k && k + 1 < |Tokens(output)| :: IsDev(Tokens(output)[k])
    ensures r.Some? ==> exists k | FirstDevAt(Tokens(output), k) :: r.value == Tokens(output)[k + 1]
  {
    var parts := Tokens(output);
    var i := Position(parts, IsDev);
    if i + 1 < |parts| then
      assert FirstDevAt(parts, i);
      Some(parts[i + 1])
    else
      assert forall k | 0 <= k < i :: !IsDev(parts[k]);
      None
  }

  lemma WordsConcat(xs: seq<string>, ys: seq<string>)
    requires forall j | 0 <= j < |xs| :: IsWord(xs[j])
    requires forall j | 0 <= j < |ys| :: IsWord(ys[j])
    ensures forall j | 0 <= j < |xs + ys| :: IsWord((xs + ys)[j])
  {
    forall j | 0 <= j < |xs + ys| ensures IsWord((xs + ys)[j]) {
      if j >= |xs| {
        assert (xs + ys)[j] == ys[j - |xs|];
      }
    }
  }

  /** For words joined by spaces, the interface is the word after the first `dev`. */
  lemma InterfaceOfWords(ws: seq<string>, k: nat)
    requires forall j | 0 <= j < |ws| :: IsWord(ws[j])
    requires k < |ws| && IsDev(ws[k]) && forall j | 0 <= j < k :: !IsDev(ws[j])
    ensures InterfaceFromRoute(Unwords(ws)) == if k + 1 < |ws| then Some(ws[k + 1]) else None
  {
    TokensUnwords(ws);
    PositionAbsent(ws, IsDev, k);
  }

  /** A route line whose first `dev` is followed by a word names that word. */
  lemma InterfaceOfRouteLine(before: seq<string>, iface: string, after: seq<string>)
    requires forall k | 0 <= k < |before| :: IsWord(before[k]) && !IsDev(before[k])
    requires IsWord(iface)
    requires forall k | 0 <= k < |after| :: IsWord(after[k])
    ensures InterfaceFromRoute(Unwords(before + ["dev", iface] + after)) == Some(iface)
  {
    var front := before + ["dev", iface];
    var ws := front + after;
    var n := |before|;
    assert forall j | 0 <= j < |ws| :: IsWord(ws[j]) by {
      DevIsWord();
      WordsConcat(before, ["dev", iface]);
      WordsConcat(front, after);
    }
    assert forall j | 0 <= j < n :: !IsDev(ws[j]) by {
      assert forall j | 0 <= j < n :: ws[j] == before[j];
    }
    assert IsDev(ws[n]) && ws[n + 1] == iface;
    InterfaceOfWords(ws, n);
  }

  /** A route line whose only `dev` is its last word names no interface. */
  lemma NoInterfaceAfterLastDev(before: seq<string>)
    requires forall k | 0 <= k < |before| :: IsWord(before[k]) && !IsDev(before[k])
    ensures InterfaceFromRoute(Unwords(before + ["dev"])) == None
  {
    var ws := before + ["dev"];
    DevIsWord();
    assert forall j | 0 <= j < |before| :: ws[j] == before[j];
    InterfaceOfWords(ws, |before|);
  }

  /** A route line without `dev` names no interface. */
  lemma NoInterfaceWithoutDev(ws: seq<string>)
    requires forall k | 0 <= k < |ws| :: IsWord(ws[k]) && !IsDev(ws[k])
    ensures InterfaceFromRoute(Unwords(ws)) == None
  {
    TokensUnwords(ws);
  }

  /** Output that is empty or only whitespace names no interface. */
  lemma NoInterfaceInBlankOutput(output: string)
    requires AllSpace(output)
    ensures InterfaceFromRoute(output) == None
  {
    TokensOfSpace(output);
  }

  /**
   * `get_default_interface`: a checked `ip route show default`, then the
   * word after `dev` in its output.
   */
  method GetDefaultInterface(h: Host) returns (iface: Option<string>, raised: bool)
    modifies h`trace
    ensures h.trace == old(h.trace) + [RouteShowDefault]
    ensures raised <==> !Succeeds(h.respond, |old(h.trace)|, RouteShowDefault)
    ensures !raised ==> iface == InterfaceFromRoute(h.respond(|old(h.trace)|, RouteShowDefault).stdout)
  {
    var result;
    result, raised := h.RunCommand(RouteShowDefault, true);
    if raised {
      return None, true;
    }
    var output := Strip(result.stdout);
    TokensStrip(result.stdout);
    if output == [] {
      return None, false;
    }
    var parts := Tokens(output);
    var devIndex := Position(parts, IsDev);
    if devIndex < |parts| && devIndex + 1 < |parts| {
      return Some(parts[devIndex + 1]), false;
    }
    return None, false;
  }
}
