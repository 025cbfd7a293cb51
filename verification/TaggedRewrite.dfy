/**
  `line_rewrite` in `tinygrad/codegen/__init__.py` as it stands, with the role tags that it hands on from an
  instruction to what replaces it. The tags are kept beside the instructions, and no instruction can get two.

  `TagArrives`: if nothing is raised, the line that stands for a tagged one carries its tag. `TwinTagsFail`: so two
  lines with different tags must not become the same instruction, which the ledger variant allows.
 */
module TaggedRewrite {
  import opened Wrappers
  import opened LineRewrite

  type Roles = map<UOp, Role>

  /** set_attention_wmma_role: an instruction keeps the tag it has. */
  function SetRole(roles: Option<Roles>, x: UOp, role: Role): Option<Roles> {
    if roles.None? || (x in roles.value && roles.value[x] != role) then None else Some(roles.value[x := role])
  }

  datatype Tagged = Tagged(done: Done, roles: Roles)

  /** The instruction that is remembered for nu. */
  function Returned(pm: Matcher, nu: UOp): UOp {
    match pm(nu)
    case Lines(ret, _) => ret
    case _ => nu
  }

  /** What a tagged instruction nu hands its tag on to: itself, and its only line or its only matrix instruction. */
  function HandOn(pm: Matcher, isMachine: UOp -> bool, roles: Roles, nu: UOp, role: Role): Option<Roles> {
    var own := SetRole(Some(roles), nu, role);
    var emitted := Emitted(pm, nu);
    if |emitted| == 1 then SetRole(SetRole(own, Returned(pm, nu), role), emitted[0], role)
    else
      var at := MachineAt(isMachine, emitted);
      if |at| != 1 then None else SetRole(own, emitted[at[0]], role)
  }

  function TagStep(pm: Matcher, isMachine: UOp -> bool, t: Tagged, u: UOp): Option<Tagged> {
    match Step(pm, t.done, u)
    case None => None
    case Some(done) =>
      if u !in t.roles then Some(Tagged(done, t.roles))
      else
        match HandOn(pm, isMachine, t.roles, Renamed(u, t.done.replaced), t.roles[u])
        case None => None
        case Some(roles) => Some(Tagged(done, roles))
  }

  /** None stands for a panic of the matcher or for an error about tags. */
  function TaggedOf(pm: Matcher, isMachine: UOp -> bool, roles: Roles, lst: seq<UOp>): Option<Tagged> {
    if lst == [] then Some(Tagged(Done([], map[]), roles))
    else
      match TaggedOf(pm, isMachine, roles, lst[..|lst| - 1])
      case None => None
      case Some(t) => TagStep(pm, isMachine, t, lst[|lst| - 1])
  }

  // ---------------------------------------------------------------- the loop

  method RewriteLines(pm: Matcher, isMachine: UOp -> bool, roles: Roles, lst: seq<UOp>)
    returns (r: Option<(seq<UOp>, Roles)>)
    ensures r.Some? <==> TaggedOf(pm, isMachine, roles, lst).Some?
    ensures r.Some? ==>
      var t := TaggedOf(pm, isMachine, roles, lst).value;
      r.value == (t.done.lines, t.roles)
  {
    var newlst: seq<UOp>, replaced: map<UOp, UOp>, table := [], map[], roles;
    for i := 0 to |lst|
      invariant TaggedOf(pm, isMachine, roles, lst[..i]) == Some(Tagged(Done(newlst, replaced), table))
    {
      var u := lst[i];
      assert lst[..i + 1][..i] == lst[..i];
      ghost var before := Tagged(Done(newlst, replaced), table);
      assert TaggedOf(pm, isMachine, roles, lst[..i + 1]) == TagStep(pm, isMachine, before, u);
      var nu := Renamed(u, replaced);
      if pm(nu).Panic? {
        FailureIsFinal(pm, isMachine, roles, lst, i + 1);
        return None;
      }
      if u in table {
        var handed := HandOnRole(pm, isMachine, table, nu, table[u]);
        if handed.None? {
          FailureIsFinal(pm, isMachine, roles, lst, i + 1);
          return None;
        }
        table := handed.value;
      }
      replaced := replaced[u := Returned(pm, nu)];
      newlst := newlst + Emitted(pm, nu);
    }
    assert lst[..|lst|] == lst;
    return Some((newlst, table));
  }

  method HandOnRole(pm: Matcher, isMachine: UOp -> bool, roles: Roles, nu: UOp, role: Role)
    returns (r: Option<Roles>)
    ensures r == HandOn(pm, isMachine, roles, nu, role)
  {
    r := SetRole(Some(roles), nu, role);
    var emitted := Emitted(pm, nu);
    if |emitted| == 1 {
      r := SetRole(r, Returned(pm, nu), role);
      r := SetRole(r, emitted[0], role);
    } else {
      var at := MachineAt(isMachine, emitted);
      if |at| != 1 {
        return None;
      }
      r := SetRole(r, emitted[at[0]], role);
    }
  }

  lemma {:induction false} FailureIsFinal(pm: Matcher, isMachine: UOp -> bool, roles: Roles, lst: seq<UOp>, i: nat)
    requires i <= |lst| && TaggedOf(pm, isMachine, roles, lst[..i]).None?
    ensures TaggedOf(pm, isMachine, roles, lst).None?
    decreases |lst| - i
  {
    if i == |lst| {
      assert lst[..i] == lst;
    } else {
      assert lst[..i + 1][..i] == lst[..i];
      FailureIsFinal(pm, isMachine, roles, lst, i + 1);
    }
  }

  // ---------------------------------------------------------------- where the tags end up

  /** No instruction loses or changes its tag. */
  ghost predicate Grows(before: Roles, after: Roles) {
    forall x :: x in before ==> x in after && after[x] == before[x]
  }

  /** Position a of the emitted lines is the only one, or that of the only matrix instruction. */
  ghost predicate StandsFor(isMachine: UOp -> bool, emitted: seq<UOp>, a: nat) {
    a < |emitted| && (|emitted| == 1 || OnlyMachine(isMachine, emitted, a))
  }

  lemma HandOnFacts(pm: Matcher, isMachine: UOp -> bool, roles: Roles, nu: UOp, role: Role) returns (a: nat)
    requires HandOn(pm, isMachine, roles, nu, role).Some?
    ensures
      var after, emitted := HandOn(pm, isMachine, roles, nu, role).value, Emitted(pm, nu);
      && Grows(roles, after) && StandsFor(isMachine, emitted, a)
      && emitted[a] in after && after[emitted[a]] == role
  {
    var emitted := Emitted(pm, nu);
    a := 0;
    if |emitted| != 1 {
      var at := MachineAt(isMachine, emitted);
      MachineAtFacts(isMachine, emitted);
      a := at[0];
      assert a in at;
      assert forall i :: i in at <==> i == a;
    }
  }

  /** One line: nothing else changes, and a tagged line has its tag on the line that stands for it. */
  lemma TagStepFacts(pm: Matcher, isMachine: UOp -> bool, t: Tagged, u: UOp) returns (a: nat)
    requires TagStep(pm, isMachine, t, u).Some?
    ensures
      var next, emitted := TagStep(pm, isMachine, t, u).value, Emitted(pm, Renamed(u, t.done.replaced));
      && Step(pm, t.done, u) == Some(next.done) && next.done.lines == t.done.lines + emitted
      && Grows(t.roles, next.roles)
      && (u in t.roles ==>
            StandsFor(isMachine, emitted, a) && emitted[a] in next.roles && next.roles[emitted[a]] == t.roles[u])
  {
    a := 0;
    if u in t.roles {
      a := HandOnFacts(pm, isMachine, t.roles, Renamed(u, t.done.replaced), t.roles[u]);
    }
  }

  /** The tags do not influence the lines, and once given they stay. */
  lemma {:induction false} TagsAreKept(pm: Matcher, isMachine: UOp -> bool, roles: Roles, lst: seq<UOp>)
    requires TaggedOf(pm, isMachine, roles, lst).Some?
    ensures
      var t := TaggedOf(pm, isMachine, roles, lst).value;
      Rewritten(pm, lst) == Some(t.done) && Grows(roles, t.roles)
  {
    hide TagStep, Step;
    if lst != [] {
      var n := |lst| - 1;
      TagsAreKept(pm, isMachine, roles, lst[..n]);
      var a := TagStepFacts(pm, isMachine, TaggedOf(pm, isMachine, roles, lst[..n]).value, lst[n]);
    }
  }

  lemma {:induction false} PrefixSucceeds(
    pm: Matcher, isMachine: UOp -> bool, roles: Roles, lst: seq<UOp>, i: nat)
    requires i <= |lst| && TaggedOf(pm, isMachine, roles, lst).Some?
    ensures TaggedOf(pm, isMachine, roles, lst[..i]).Some?
    ensures
      var t, s := TaggedOf(pm, isMachine, roles, lst).value, TaggedOf(pm, isMachine, roles, lst[..i]).value;
      s.done.lines <= t.done.lines && Grows(s.roles, t.roles)
  {
    hide TagStep, Step;
    if i == |lst| {
      assert lst[..i] == lst;
    } else {
      var n := |lst| - 1;
      PrefixSucceeds(pm, isMachine, roles, lst[..n], i);
      assert lst[..n][..i] == lst[..i];
      var a := TagStepFacts(pm, isMachine, TaggedOf(pm, isMachine, roles, lst[..n]).value, lst[n]);
    }
  }

  /** The lines emitted for line i. */
  function LinesFor(pm: Matcher, lst: seq<UOp>, i: nat): seq<UOp>
    requires i < |lst| && Rewritten(pm, lst[..i]).Some?
  {
    Emitted(pm, Renamed(lst[i], Rewritten(pm, lst[..i]).value.replaced))
  }

  /** If nothing is raised, the line that stands for a tagged one carries its tag in the end. */
  lemma TagArrives(pm: Matcher, isMachine: UOp -> bool, roles: Roles, lst: seq<UOp>, i: nat) returns (a: nat)
    requires i < |lst| && lst[i] in roles && TaggedOf(pm, isMachine, roles, lst).Some?
    ensures Rewritten(pm, lst[..i]).Some?
    ensures
      var t, emitted, from := TaggedOf(pm, isMachine, roles, lst).value, LinesFor(pm, lst, i),
        |Rewritten(pm, lst[..i]).value.lines|;
      && StandsFor(isMachine, emitted, a)
      && from + |emitted| <= |t.done.lines| && t.done.lines[from..from + |emitted|] == emitted
      && emitted[a] in t.roles && t.roles[emitted[a]] == roles[lst[i]]
  {
    hide TagStep, Step, Emitted, Renamed, StandsFor;
    PrefixSucceeds(pm, isMachine, roles, lst, i);
    PrefixSucceeds(pm, isMachine, roles, lst, i + 1);
    TagsAreKept(pm, isMachine, roles, lst[..i]);
    assert lst[..i + 1][..i] == lst[..i];
    var s := TaggedOf(pm, isMachine, roles, lst[..i]).value;
    a := TagStepFacts(pm, isMachine, s, lst[i]);
  }

  /** Two lines with different tags that come to stand for the same instruction make the rewriting fail. */
  lemma TwinTagsFail(pm: Matcher, isMachine: UOp -> bool, roles: Roles, lst: seq<UOp>, i: nat, j: nat, a: nat, b: nat)
    requires i < |lst| && j < |lst| && lst[i] in roles && lst[j] in roles && roles[lst[i]] != roles[lst[j]]
    requires Rewritten(pm, lst[..i]).Some? && Rewritten(pm, lst[..j]).Some?
    requires StandsFor(isMachine, LinesFor(pm, lst, i), a) && StandsFor(isMachine, LinesFor(pm, lst, j), b)
    requires LinesFor(pm, lst, i)[a] == LinesFor(pm, lst, j)[b]
    ensures TaggedOf(pm, isMachine, roles, lst).None?
  {
    if TaggedOf(pm, isMachine, roles, lst).Some? {
      var a' := TagArrives(pm, isMachine, roles, lst, i);
      var b' := TagArrives(pm, isMachine, roles, lst, j);
      StandsForOne(isMachine, LinesFor(pm, lst, i), a, a');
      StandsForOne(isMachine, LinesFor(pm, lst, j), b, b');
      assert false;
    }
  }

  lemma StandsForOne(isMachine: UOp -> bool, emitted: seq<UOp>, a: nat, b: nat)
    requires StandsFor(isMachine, emitted, a) && StandsFor(isMachine, emitted, b)
    ensures a == b
  {
    assert emitted[a] == emitted[a] && emitted[b] == emitted[b];
  }

  /** Without tags only the matcher can fail. */
  lemma {:induction false} UntaggedIff(pm: Matcher, isMachine: UOp -> bool, lst: seq<UOp>)
    ensures TaggedOf(pm, isMachine, map[], lst).Some? <==> Rewritten(pm, lst).Some?
    ensures TaggedOf(pm, isMachine, map[], lst).Some? ==>
      TaggedOf(pm, isMachine, map[], lst).value == Tagged(Rewritten(pm, lst).value, map[])
  {
    if lst != [] {
      UntaggedIff(pm, isMachine, lst[..|lst| - 1]);
    }
  }
}
