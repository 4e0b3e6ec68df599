// The rule registry of reductions.js: identities parsed from equation
// strings, disabling rules by their left side, and listing the rules that
// match an expression together with the substitution each one proposes.

module Reductions {
  import opened Options
  import opened Expressions
  import opened Matching

  // ---------------------------------------------------------------------
  // String.prototype.split('==') and its inverse

  /** The pieces of s between the occurrences of "==", scanning left to
      right and never overlapping, as String.prototype.split does. */
  function Split(s: string): (parts: seq<string>)
    ensures |parts| >= 1 && parts[0] <= s
    decreases |s|
  {
    if |s| < 2 then [s]
    else if s[0] == '=' && s[1] == '=' then [""] + Split(s[2..])
    else
      var rest := Split(s[1..]);
      [[s[0]] + rest[0]] + rest[1..]
  }

  /** Array.prototype.join('=='). */
  function Join(parts: seq<string>): string
    requires |parts| >= 1
  {
    if |parts| == 1 then parts[0] else parts[0] + "==" + Join(parts[1..])
  }

  /** No "==" occurs inside p. */
  predicate NoSeparator(p: string) {
    forall i :: 0 <= i < |p| - 1 ==> !(p[i] == '=' && p[i + 1] == '=')
  }

  /** Joining the pieces gives the string back. */
  lemma {:induction false} JoinSplit(s: string)
    ensures Join(Split(s)) == s
    decreases |s|
  {
    if |s| < 2 {
    } else if s[0] == '=' && s[1] == '=' {
      JoinSplit(s[2..]);
      JoinCons("", Split(s[2..]));
      assert Split(s) == [""] + Split(s[2..]);
      assert s == "==" + s[2..];
    } else {
      JoinSplit(s[1..]);
      JoinExtendFirst(s[0], Split(s[1..]));
      assert Split(s) == [[s[0]] + Split(s[1..])[0]] + Split(s[1..])[1..];
      assert s == [s[0]] + s[1..];
    }
  }

  /** split is leftmost: no "==" starts inside the first piece, not even
      one that runs past its end, and the first piece is followed by "=="
      when there are more pieces and is all of s otherwise. So "===" splits
      as ["", "="] and not as ["=", ""]. */
  lemma {:induction false} SplitLeftmost(s: string)
    ensures var p := Split(s)[0];
      (forall i :: 0 <= i < |p| && i + 1 < |s| ==> !(s[i] == '=' && s[i + 1] == '=')) &&
      (|Split(s)| > 1 ==> |p| + 2 <= |s| && s[|p|] == '=' && s[|p| + 1] == '=') &&
      (|Split(s)| == 1 ==> p == s)
    decreases |s|
  {
    if |s| >= 2 && !(s[0] == '=' && s[1] == '=') {
      var t := s[1..];
      SplitLeftmost(t);
      var q := Split(t)[0];
      assert Split(s)[0] == [s[0]] + q && |Split(s)| == |Split(t)|;
      forall i | 1 <= i < |q| + 1 && i + 1 < |s|
        ensures !(s[i] == '=' && s[i + 1] == '=')
      {
        assert s[i] == t[i - 1] && s[i + 1] == t[i];
      }
      if |Split(t)| > 1 {
        assert s[|q| + 1] == t[|q|] && s[|q| + 2] == t[|q| + 1];
      } else {
        assert s == [s[0]] + t;
      }
    }
  }

  /** After the first piece and its separator, the remaining pieces are
      the split of what is left: with SplitLeftmost this fixes every piece. */
  lemma {:induction false} SplitRest(s: string)
    requires |Split(s)| > 1
    ensures |Split(s)[0]| + 2 <= |s|
    ensures Split(s)[1..] == Split(s[|Split(s)[0]| + 2..])
    decreases |s|
  {
    SplitLeftmost(s);
    if !(s[0] == '=' && s[1] == '=') {
      var t := s[1..];
      assert Split(s)[0] == [s[0]] + Split(t)[0] && Split(s)[1..] == Split(t)[1..];
      SplitRest(t);
      assert s[|Split(s)[0]| + 2..] == t[|Split(t)[0]| + 2..];
    }
  }

  /** The leftmost separator wins in "===". */
  lemma TripleEquals()
    ensures Split("===") == ["", "="]
  {
    assert "==="[2..] == "=";
  }

  /** Joining a piece in front adds it and one separator. */
  lemma JoinCons(p: string, ps: seq<string>)
    requires |ps| >= 1
    ensures Join([p] + ps) == p + "==" + Join(ps)
  {
    assert ([p] + ps)[1..] == ps;
  }

  /** Putting a character in front of the first piece puts it in front of
      the joined string. */
  lemma JoinExtendFirst(c: char, ps: seq<string>)
    requires |ps| >= 1
    ensures Join([[c] + ps[0]] + ps[1..]) == [c] + Join(ps)
  {
    var p, qs := ps[0], ps[1..];
    if |ps| > 1 {
      assert ps == [p] + qs;
      JoinExtendFirstOfMany(c, p, qs);
    } else {
      assert qs == [];
      assert [[c] + p] + qs == [[c] + p];
    }
  }

  /** JoinExtendFirst when more pieces follow the first. */
  lemma JoinExtendFirstOfMany(c: char, p: string, ps: seq<string>)
    requires |ps| >= 1
    ensures Join([[c] + p] + ps) == [c] + Join([p] + ps)
  {
    JoinCons([c] + p, ps);
    JoinCons(p, ps);
    Reassociate([c], p, "==", Join(ps));
  }

  /** The head and tail of a three-part concatenation. */
  lemma DropFirst(l: string, m: string, r: string)
    requires |l| >= 1
    ensures |l + m + r| >= 1 && (l + m + r)[0] == l[0] && (l + m + r)[1..] == l[1..] + m + r
  {
  }

  /** Four-part concatenation regrouped to the right. */
  lemma Reassociate(x: string, p: string, m: string, r: string)
    ensures x + p + m + r == x + (p + m + r)
  {
  }

  /** No piece contains the separator. */
  lemma {:induction false} SplitPiecesHaveNoSeparator(s: string)
    ensures forall k :: 0 <= k < |Split(s)| ==> NoSeparator(Split(s)[k])
    decreases |s|
  {
    if |s| < 2 {
    } else if s[0] == '=' && s[1] == '=' {
      SplitPiecesHaveNoSeparator(s[2..]);
      assert Split(s)[1..] == Split(s[2..]);
    } else {
      SplitPiecesHaveNoSeparator(s[1..]);
      var rest := Split(s[1..]);
      var first := [s[0]] + rest[0];
      assert Split(s) == [first] + rest[1..];
      FirstPieceHasNoSeparator(s, rest[0]);
    }
  }

  /** One step of the scan: a character that does not start "==" joins the
      first piece of the rest. */
  lemma FirstPieceHasNoSeparator(s: string, p: string)
    requires |s| >= 2 && !(s[0] == '=' && s[1] == '=')
    requires p <= s[1..] && NoSeparator(p)
    ensures NoSeparator([s[0]] + p)
  {
    var first := [s[0]] + p;
    forall i | 0 <= i < |first| - 1
      ensures !(first[i] == '=' && first[i + 1] == '=')
    {
      if i == 0 {
        assert first[1] == p[0] == s[1];
      } else {
        assert first[i] == p[i - 1] && first[i + 1] == p[i];
      }
    }
  }

  /** A string without '=' is a single piece. */
  lemma {:induction false} SplitWithoutEquals(r: string)
    requires '=' !in r
    ensures Split(r) == [r]
    decreases |r|
  {
    if |r| >= 2 {
      SplitWithoutEquals(r[1..]);
      assert r == [r[0]] + r[1..];
    }
  }

  /** l == r with no '=' on either side splits into exactly its two sides. */
  lemma {:induction false} SplitEquation(l: string, r: string)
    requires '=' !in l && '=' !in r
    ensures Split(l + "==" + r) == [l, r]
    decreases |l|
  {
    var s := l + "==" + r;
    if l == [] {
      assert s == "==" + r;
      assert s[2..] == r;
      SplitWithoutEquals(r);
    } else {
      SplitEquation(l[1..], r);
      DropFirst(l, "==", r);
      assert s[0] == l[0] != '=';
      assert Split(s) == [[l[0]] + l[1..]] + [r];
      assert [l[0]] + l[1..] == l;
    }
  }

  // ---------------------------------------------------------------------
  // Decimal names input1, input2, ...

  function Digit(d: nat): char
    requires d < 10
  {
    (48 + d) as char
  }

  /** The decimal text of n, as JavaScript's number-to-string gives it. */
  function NatToString(n: nat): (s: string)
    ensures |s| >= 1 && forall i :: 0 <= i < |s| ==> '0' <= s[i] <= '9'
    decreases n
  {
    if n < 10 then [Digit(n)] else NatToString(n / 10) + [Digit(n % 10)]
  }

  /** Reads decimal digits back; the reference that makes NatToString's
      texts distinct. */
  function ParseDecimal(s: string): nat {
    if s == [] then 0
    else ParseDecimal(s[..|s| - 1]) * 10 + (if '0' <= s[|s| - 1] <= '9' then (s[|s| - 1] as int - 48) else 0)
  }

  lemma {:induction false} ParseNatToString(n: nat)
    ensures ParseDecimal(NatToString(n)) == n
    decreases n
  {
    if n >= 10 {
      ParseNatToString(n / 10);
      var s := NatToString(n);
      assert s[..|s| - 1] == NatToString(n / 10);
    }
  }

  /** The name Match gives the j-th unbound variable (counting from 1). */
  function InputName(j: nat): string {
    "input" + NatToString(j)
  }

  /** Different counters give different names. */
  lemma InputNamesDistinct(i: nat, j: nat)
    requires InputName(i) == InputName(j)
    ensures i == j
  {
    assert NatToString(i) == InputName(i)[5..] == InputName(j)[5..] == NatToString(j);
    ParseNatToString(i);
    ParseNatToString(j);
  }

  // ---------------------------------------------------------------------
  // Identity and Match

  /** An identity: refExpr is rewritten to eqExpr. */
  datatype Identity = Identity(refExpr: Expr, eqExpr: Expr, description: string,
                               isValid: bool, isActive: bool, idNum: nat)

  /** A Match: the substituted right side, the bindings (pattern variables
      from the match, input1... for the rest), how many inputs were
      invented, and the rule's id. The TeX and text renderings are left
      out. */
  datatype RuleMatch = RuleMatch(subExpr: Expr, bindings: Bindings, name: string,
                                 numInputs: nat, ruleID: nat)

  /** The variables of deps that b does not bind, in order. */
  function Unbound(deps: seq<string>, b: Bindings): (m: seq<string>)
    ensures forall v :: v in m <==> v in deps && v !in b
  {
    if deps == [] then []
    else
      var m := Unbound(deps[..|deps| - 1], b);
      var v := deps[|deps| - 1];
      assert deps == deps[..|deps| - 1] + [v];
      if v in b then m else m + [v]
  }

  /** Distinct dependencies give distinct unbound variables. */
  lemma {:induction false} UnboundDistinct(deps: seq<string>, b: Bindings)
    requires Distinct(deps)
    ensures Distinct(Unbound(deps, b))
  {
    if deps != [] {
      var pre := deps[..|deps| - 1];
      var v := deps[|deps| - 1];
      assert Distinct(pre);
      UnboundDistinct(pre, b);
      assert v !in pre by {
        forall i | 0 <= i < |pre|
          ensures pre[i] != v
        {
          assert pre[i] == deps[i];
        }
      }
      assert v !in Unbound(pre, b);
    }
  }

  predicate Distinct(s: seq<string>) {
    forall i, j :: 0 <= i < j < |s| ==> s[i] != s[j]
  }

  /** b with miss[j] bound to the variable input(j+1). */
  function NameInputs(b: Bindings, miss: seq<string>): (r: Bindings)
    ensures r.Keys == b.Keys + (set v | v in miss)
    ensures forall v :: v in b && v !in miss ==> r[v] == b[v]
  {
    if miss == [] then b
    else
      var m := miss[..|miss| - 1];
      assert miss == m + [miss[|miss| - 1]];
      NameInputs(b, m)[miss[|miss| - 1] := Var(InputName(|miss|))]
  }

  /** With distinct names, miss[j] is bound to input(j+1). */
  lemma {:induction false} NameInputsAt(b: Bindings, miss: seq<string>, j: nat)
    requires Distinct(miss)
    requires j < |miss|
    ensures NameInputs(b, miss)[miss[j]] == Var(InputName(j + 1))
  {
    if j < |miss| - 1 {
      var m := miss[..|miss| - 1];
      assert Distinct(m);
      NameInputsAt(b, m, j);
      assert miss[j] == m[j] != miss[|miss| - 1];
    }
  }

  /** new Match(testRule, bindings). */
  function MakeRuleMatch(env: Env, rule: Identity, b: Bindings): RuleMatch {
    var miss := Unbound(Dependencies(rule.eqExpr), b);
    var full := NameInputs(b, miss);
    RuleMatch(Compose(env, rule.eqExpr, full), full, rule.description, |miss|, rule.idNum)
  }

  /** The Match constructor's first loop: the unbound variables of the
      right side. */
  method CollectUnbound(allVars: seq<string>, b: Bindings) returns (missVars: seq<string>)
    ensures missVars == Unbound(allVars, b)
  {
    missVars := [];
    var j := 0;
    while j < |allVars|
      invariant 0 <= j <= |allVars|
      invariant missVars == Unbound(allVars[..j], b)
    {
      UnboundStep(allVars, b, j);
      if allVars[j] !in b {
        missVars := missVars + [allVars[j]];
      }
      j := j + 1;
    }
    TakeAll(allVars);
  }

  /** One more variable scanned: it is added when it has no binding. */
  lemma UnboundStep(deps: seq<string>, b: Bindings, j: nat)
    requires j < |deps|
    ensures Unbound(deps[..j + 1], b) ==
      if deps[j] in b then Unbound(deps[..j], b) else Unbound(deps[..j], b) + [deps[j]]
  {
    assert deps[..j + 1][..j] == deps[..j] && deps[..j + 1][j] == deps[j];
  }

  /** The Match constructor's second loop: writes input(j+1) into the
      bindings for each unbound variable. */
  method BindInputs(b: Bindings, missVars: seq<string>) returns (bindings: Bindings)
    ensures bindings == NameInputs(b, missVars)
  {
    bindings := b;
    var j := 0;
    while j < |missVars|
      invariant 0 <= j <= |missVars|
      invariant bindings == NameInputs(b, missVars[..j])
    {
      NameInputsStep(b, missVars, j);
      bindings := bindings[missVars[j] := Var(InputName(j + 1))];
      j := j + 1;
    }
    TakeAll(missVars);
  }

  /** One more unbound variable named: it is bound to input(j+1). */
  lemma NameInputsStep(b: Bindings, miss: seq<string>, j: nat)
    requires j < |miss|
    ensures NameInputs(b, miss[..j + 1]) == NameInputs(b, miss[..j])[miss[j] := Var(InputName(j + 1))]
  {
    assert miss[..j + 1][..j] == miss[..j] && miss[..j + 1][j] == miss[j];
  }

  /** new Match(testRule, bindings). */
  method NewMatch(env: Env, rule: Identity, b: Bindings) returns (m: RuleMatch)
    ensures m == MakeRuleMatch(env, rule, b)
  {
    var missVars := CollectUnbound(Dependencies(rule.eqExpr), b);
    var bindings := BindInputs(b, missVars);
    m := RuleMatch(Compose(env, rule.eqExpr, bindings), bindings, rule.description, |missVars|, rule.idNum);
  }

  /** What Match promises: the match's bindings are kept, every variable of
      the right side gets a binding, the unbound ones in dependency order
      become input1, input2, ..., and numInputs counts them. */
  lemma MatchNamesInputs(env: Env, rule: Identity, b: Bindings)
    ensures var m := MakeRuleMatch(env, rule, b);
      Extends(m.bindings, b) &&
      (forall v :: v in Dependencies(rule.eqExpr) ==> v in m.bindings) &&
      m.numInputs == |Unbound(Dependencies(rule.eqExpr), b)| &&
      (forall j :: 0 <= j < m.numInputs ==>
         m.bindings[Unbound(Dependencies(rule.eqExpr), b)[j]] == Var(InputName(j + 1))) &&
      m.ruleID == rule.idNum
  {
    var deps := Dependencies(rule.eqExpr);
    var miss := Unbound(deps, b);
    assert Distinct(deps);
    UnboundDistinct(deps, b);
    forall j | 0 <= j < |miss|
      ensures NameInputs(b, miss)[miss[j]] == Var(InputName(j + 1))
    {
      NameInputsAt(b, miss, j);
    }
  }

  // ---------------------------------------------------------------------
  // The registry

  /** Ids are the 1-based positions. */
  predicate Numbered(rs: seq<Identity>) {
    forall i :: 0 <= i < |rs| ==> rs[i].idNum == i + 1
  }

  /** The identity newRule builds for direction refID (0: left to right,
      1: right to left) with the given id. */
  function Direction(env: Env, parts: seq<string>, description: string, isValid: bool,
                     refID: nat, id: nat): Identity
    requires |parts| == 2 && refID <= 1
  {
    Identity(env.parse(parts[refID]), env.parse(parts[1 - refID]), description, isValid, true, id)
  }

  /** The identities newRule appends to a list of length n. */
  function NewIdentities(env: Env, n: nat, equation: string, description: string,
                         isValid: bool, useOneWay: bool): (r: seq<Identity>)
    ensures |Split(equation)| != 2 ==> r == []
    ensures |Split(equation)| == 2 ==> |r| == if useOneWay then 1 else 2
    ensures forall i :: 0 <= i < |r| ==> r[i].idNum == n + 1 + i && r[i].isActive
    ensures forall i :: 0 <= i < |r| ==> r[i].isValid == isValid && r[i].description == description
  {
    var parts := Split(equation);
    if |parts| != 2 then []
    else if useOneWay then [Direction(env, parts, description, isValid, 0, n + 1)]
    else [Direction(env, parts, description, isValid, 0, n + 1), Direction(env, parts, description, isValid, 1, n + 2)]
  }

  /** newRule keeps the ids the positions, and the new rules are active. */
  lemma NewRuleKeepsNumbering(env: Env, rs: seq<Identity>, equation: string, description: string,
                              isValid: bool, useOneWay: bool)
    requires Numbered(rs)
    ensures Numbered(rs + NewIdentities(env, |rs|, equation, description, isValid, useOneWay))
  {
  }

  /** The second direction of l == r is r == l. */
  lemma NewRuleDirections(env: Env, l: string, r: string, description: string, isValid: bool, n: nat)
    requires '=' !in l && '=' !in r
    ensures var ids := NewIdentities(env, n, l + "==" + r, description, isValid, false);
      |ids| == 2 &&
      ids[0].refExpr == env.parse(l) && ids[0].eqExpr == env.parse(r) &&
      ids[1].refExpr == env.parse(r) && ids[1].eqExpr == env.parse(l)
    ensures var ids := NewIdentities(env, n, l + "==" + r, description, isValid, true);
      |ids| == 1 && ids[0].refExpr == env.parse(l) && ids[0].eqExpr == env.parse(r)
  {
    SplitEquation(l, r);
  }

  /** The duplicate check never rejects anything: l == l registered both
      ways gives two identities with the same left side. */
  lemma DuplicateCheckNeverFires(env: Env, l: string, description: string, isValid: bool, n: nat)
    requires '=' !in l
    ensures var ids := NewIdentities(env, n, l + "==" + l, description, isValid, false);
      |ids| == 2 && ids[0].refExpr == ids[1].refExpr
  {
    SplitEquation(l, l);
  }

  /** The rules after disableRule: those whose left side matches the
      parsed left side of the equation become inactive; nothing else
      changes, and no rule becomes active. */
  function Disabled(env: Env, rs: seq<Identity>, equation: string): (r: seq<Identity>)
    ensures |r| == |rs|
    ensures forall i :: 0 <= i < |rs| ==> r[i] == rs[i].(isActive := r[i].isActive)
    ensures forall i :: 0 <= i < |rs| ==> r[i].isActive ==> rs[i].isActive
    ensures |Split(equation)| > 2 ==> r == rs
    ensures |Split(equation)| <= 2 ==> forall i :: 0 <= i < |rs| ==>
      (r[i].isActive <==> rs[i].isActive && Match(env, rs[i].refExpr, env.parse(Split(equation)[0]), map[]).None?)
  {
    var parts := Split(equation);
    if |parts| > 2 then rs
    else
      var refExpr := env.parse(parts[0]);
      seq(|rs|, i requires 0 <= i < |rs| =>
        if Match(env, rs[i].refExpr, refExpr, map[]).Some? then rs[i].(isActive := false) else rs[i])
  }

  /** An active rule whose left side matches the expression. */
  predicate Accepts(env: Env, rule: Identity, t: Expr) {
    rule.isActive && Match(env, rule.refExpr, t, map[]).Some?
  }

  /** The Match findMatchRules lists for one rule, if any. */
  function Listed(env: Env, rule: Identity, t: Expr): (m: Option<RuleMatch>)
    ensures m.Some? <==> Accepts(env, rule, t)
    ensures m.Some? ==> m.value.ruleID == rule.idNum
  {
    if Accepts(env, rule, t) then Some(MakeRuleMatch(env, rule, Match(env, rule.refExpr, t, map[]).value))
    else None
  }

  /** findMatchRules: one Match per accepting rule, in registry order. */
  function MatchRules(env: Env, rs: seq<Identity>, t: Expr): (ms: seq<RuleMatch>)
    ensures |ms| <= |rs|
  {
    if rs == [] then []
    else
      var prev := MatchRules(env, rs[..|rs| - 1], t);
      var m := Listed(env, rs[|rs| - 1], t);
      if m.Some? then prev + [m.value] else prev
  }

  /** One more rule scanned: its Match, if any, goes at the end. */
  lemma MatchRulesStep(env: Env, rs: seq<Identity>, i: nat, t: Expr, m: Option<RuleMatch>)
    requires i < |rs| && m == Listed(env, rs[i], t)
    ensures m.Some? ==> MatchRules(env, rs[..i + 1], t) == MatchRules(env, rs[..i], t) + [m.value]
    ensures m.None? ==> MatchRules(env, rs[..i + 1], t) == MatchRules(env, rs[..i], t)
  {
    assert rs[..i + 1][..i] == rs[..i] && rs[..i + 1][i] == rs[i];
  }

  /** m is the Match of the accepting rule its id names. */
  predicate FromRule(env: Env, rs: seq<Identity>, t: Expr, m: RuleMatch) {
    1 <= m.ruleID <= |rs| && Listed(env, rs[m.ruleID - 1], t) == Some(m)
  }

  /** In a numbered registry every listed Match comes from the accepting
      rule its id names. */
  lemma {:induction false} MatchRulesFromRules(env: Env, rs: seq<Identity>, t: Expr)
    requires Numbered(rs)
    ensures forall k :: 0 <= k < |MatchRules(env, rs, t)| ==> FromRule(env, rs, t, MatchRules(env, rs, t)[k])
  {
    if rs != [] {
      var pre, m := rs[..|rs| - 1], Listed(env, rs[|rs| - 1], t);
      assert Numbered(pre);
      MatchRulesFromRules(env, pre, t);
      var prev, ms := MatchRules(env, pre, t), MatchRules(env, rs, t);
      MatchRulesLast(env, rs, t, pre, m);
      forall k | 0 <= k < |ms|
        ensures FromRule(env, rs, t, ms[k])
      {
        if k < |prev| {
          assert ms[k] == prev[k];
          FromRuleExtends(env, pre, rs, t, prev[k]);
        } else {
          assert ms[k] == m.value;
          LastFromRule(env, rs, t, m.value);
        }
      }
    }
  }

  lemma FromRuleExtends(env: Env, pre: seq<Identity>, rs: seq<Identity>, t: Expr, m: RuleMatch)
    requires |rs| >= 1 && pre == rs[..|rs| - 1] && FromRule(env, pre, t, m)
    ensures FromRule(env, rs, t, m)
  {
    assert rs[m.ruleID - 1] == pre[m.ruleID - 1];
  }

  lemma LastFromRule(env: Env, rs: seq<Identity>, t: Expr, m: RuleMatch)
    requires Numbered(rs) && |rs| >= 1 && Listed(env, rs[|rs| - 1], t) == Some(m)
    ensures FromRule(env, rs, t, m)
  {
    var n := |rs| - 1;
    assert rs[n].idNum == n + 1;
    assert m.ruleID == rs[n].idNum;
  }

  /** In a numbered registry the ids of the listed Matches increase. */
  lemma {:induction false} MatchRulesInOrder(env: Env, rs: seq<Identity>, t: Expr)
    requires Numbered(rs)
    ensures forall k, l :: 0 <= k < l < |MatchRules(env, rs, t)| ==>
      MatchRules(env, rs, t)[k].ruleID < MatchRules(env, rs, t)[l].ruleID
  {
    if rs != [] {
      var n := |rs| - 1;
      var pre, m := rs[..n], Listed(env, rs[n], t);
      assert Numbered(pre);
      MatchRulesInOrder(env, pre, t);
      MatchRulesFromRules(env, pre, t);
      var prev := MatchRules(env, pre, t);
      MatchRulesLast(env, rs, t, pre, m);
      if m.Some? {
        assert m.value.ruleID == rs[n].idNum == n + 1;
        forall k | 0 <= k < |prev|
          ensures prev[k].ruleID < m.value.ruleID
        {
          assert FromRule(env, pre, t, prev[k]);
        }
        IdsIncreaseSnoc(prev, m.value);
      }
    }
  }

  /** Appending a Match whose id exceeds every listed id keeps ids increasing. */
  lemma IdsIncreaseSnoc(ms: seq<RuleMatch>, m: RuleMatch)
    requires forall k, l :: 0 <= k < l < |ms| ==> ms[k].ruleID < ms[l].ruleID
    requires forall k :: 0 <= k < |ms| ==> ms[k].ruleID < m.ruleID
    ensures forall k, l :: 0 <= k < l < |ms + [m]| ==> (ms + [m])[k].ruleID < (ms + [m])[l].ruleID
  {
  }

  /** In a numbered registry every accepting rule is listed. */
  lemma {:induction false} MatchRulesComplete(env: Env, rs: seq<Identity>, t: Expr, i: nat)
    requires Numbered(rs) && i < |rs| && Accepts(env, rs[i], t)
    ensures exists k :: 0 <= k < |MatchRules(env, rs, t)| && MatchRules(env, rs, t)[k].ruleID == i + 1
  {
    var pre := rs[..|rs| - 1];
    if i == |rs| - 1 {
      LastRuleListed(env, rs, t);
    } else {
      assert Numbered(pre) && pre[i] == rs[i];
      MatchRulesComplete(env, pre, t, i);
      var k :| 0 <= k < |MatchRules(env, pre, t)| && MatchRules(env, pre, t)[k].ruleID == i + 1;
      ListedStaysListed(env, rs, t, pre, k);
    }
  }

  /** An accepting last rule puts its Match, with its id, last. */
  lemma LastRuleListed(env: Env, rs: seq<Identity>, t: Expr)
    requires Numbered(rs) && rs != [] && Accepts(env, rs[|rs| - 1], t)
    ensures |MatchRules(env, rs, t)| > 0 && MatchRules(env, rs, t)[|MatchRules(env, rs, t)| - 1].ruleID == |rs|
  {
    var n := |rs| - 1;
    var m := Listed(env, rs[n], t);
    MatchRulesLast(env, rs, t, rs[..n], m);
    assert m.Some? && m.value.ruleID == rs[n].idNum == n + 1;
  }

  /** Scanning one more rule keeps the Matches already listed. */
  lemma ListedStaysListed(env: Env, rs: seq<Identity>, t: Expr, pre: seq<Identity>, k: nat)
    requires rs != [] && pre == rs[..|rs| - 1] && k < |MatchRules(env, pre, t)|
    ensures k < |MatchRules(env, rs, t)| && MatchRules(env, rs, t)[k] == MatchRules(env, pre, t)[k]
  {
    MatchRulesLast(env, rs, t, pre, Listed(env, rs[|rs| - 1], t));
  }

  /** MatchRules of a non-empty registry: the list for all but the last
      rule, then the last rule's Match, if any. */
  lemma MatchRulesLast(env: Env, rs: seq<Identity>, t: Expr, pre: seq<Identity>, m: Option<RuleMatch>)
    requires rs != [] && pre == rs[..|rs| - 1] && m == Listed(env, rs[|rs| - 1], t)
    ensures MatchRules(env, rs, t) ==
      if m.Some? then MatchRules(env, pre, t) + [m.value] else MatchRules(env, pre, t)
  {
  }

  /** An inactive rule is never listed. */
  lemma InactiveNeverListed(env: Env, rs: seq<Identity>, t: Expr, i: nat)
    requires Numbered(rs) && i < |rs| && !rs[i].isActive
    ensures forall k :: 0 <= k < |MatchRules(env, rs, t)| ==> MatchRules(env, rs, t)[k].ruleID != i + 1
  {
    MatchRulesFromRules(env, rs, t);
  }

  /** One pass of the findMatchRules loop: the rule's Match when it is
      active and its left side matches the expression. */
  method TryRule(env: Env, testRule: Identity, testExpr: Expr) returns (found: Option<RuleMatch>)
    ensures found.Some? <==> testRule.isActive && Match(env, testRule.refExpr, testExpr, map[]).Some?
    ensures found == Listed(env, testRule, testExpr)
  {
    var bindings := Match(env, testRule.refExpr, testExpr, map[]);
    if testRule.isActive && bindings.Some? {
      var m := NewMatch(env, testRule, bindings.value);
      found := Some(m);
    } else {
      found := None;
    }
  }

  /** The findMatchRules loop: every rule is tried in order, and an active
      one whose left side matches adds its Match to the list. */
  method ScanRules(env: Env, rs: seq<Identity>, testExpr: Expr) returns (matchList: seq<RuleMatch>)
    ensures matchList == MatchRules(env, rs, testExpr)
  {
    matchList := [];
    var i := 0;
    while i < |rs|
      invariant 0 <= i <= |rs|
      invariant matchList == MatchRules(env, rs[..i], testExpr)
    {
      var found := TryRule(env, rs[i], testExpr);
      MatchRulesStep(env, rs, i, testExpr, found);
      if found.Some? {
        matchList := matchList + [found.value];
      }
      i := i + 1;
    }
    TakeAll(rs);
  }

  /** A reduction list, which newRule appends to and disableRule edits in
      place. */
  class Registry {
    var rules: seq<Identity>

    constructor()
      ensures rules == []
    {
      rules := [];
    }

    /** newRule(menv, reductionList, equation, description, isValid,
        useOneWay). The duplicate check compares each new left side with
        those already added in the same direction only, of which there are
        none, so it never rejects. */
    method NewRule(env: Env, equation: string, description: string, isValid: bool, useOneWay: bool)
      modifies this
      ensures rules == old(rules) + NewIdentities(env, |old(rules)|, equation, description, isValid, useOneWay)
    {
      var exprFormulas := Split(equation);
      if |exprFormulas| != 2 {
        return;
      }
      ghost var n := |old(rules)|;
      ghost var fwd := Direction(env, exprFormulas, description, isValid, 0, n + 1);
      ghost var bwd := Direction(env, exprFormulas, description, isValid, 1, n + 2);
      var refID := 0;
      while refID <= 1
        invariant 0 <= refID <= 2
        invariant refID == 0 ==> rules == old(rules)
        invariant refID == 1 ==> rules == old(rules) + [fwd]
        invariant refID == 2 ==> rules == old(rules) + [fwd, bwd] && !useOneWay
      {
        if refID == 1 && useOneWay {
          break;
        }
        var eqExpr := env.parse(exprFormulas[1 - refID]);
        var allRefExpr := [exprFormulas[refID]];
        var uniqueExpr: seq<Expr> := [];
        ghost var before := rules;
        var i := 0;
        while i < |allRefExpr|
          invariant 0 <= i <= 1
          invariant i == 0 ==> uniqueExpr == [] && rules == before
          invariant i == 1 ==> rules == before + [Direction(env, exprFormulas, description, isValid, refID, |before| + 1)]
        {
          var nextExpr := env.parse(allRefExpr[i]);
          // the inner loop over uniqueExpr: is nextExpr new?
          var isNew := forall u | u in uniqueExpr :: Match(env, u, nextExpr, map[]).None?;
          if isNew {
            var ruleID := |rules| + 1;
            rules := rules + [Identity(nextExpr, eqExpr, description, isValid, true, ruleID)];
            uniqueExpr := uniqueExpr + [nextExpr];
          }
          i := i + 1;
        }
        refID := refID + 1;
      }
    }

    /** disableRule(menv, reductionList, equation). */
    method DisableRule(env: Env, equation: string)
      modifies this
      ensures rules == Disabled(env, old(rules), equation)
    {
      var exprFormulas := Split(equation);
      if |exprFormulas| > 2 {
        return;
      }
      var refExpr := env.parse(exprFormulas[0]);
      var i := 0;
      while i < |rules|
        invariant 0 <= i <= |rules| == |old(rules)|
        invariant forall k :: 0 <= k < i ==> rules[k] == Disabled(env, old(rules), equation)[k]
        invariant forall k :: i <= k < |rules| ==> rules[k] == old(rules)[k]
      {
        if Match(env, rules[i].refExpr, refExpr, map[]).Some? {
          rules := rules[i := rules[i].(isActive := false)];
        }
        i := i + 1;
      }
    }

    /** findMatchRules(reductionList, testExpr). */
    method FindMatchRules(env: Env, testExpr: Expr) returns (matchList: seq<RuleMatch>)
      ensures matchList == MatchRules(env, rules, testExpr)
    {
      matchList := ScanRules(env, rules, testExpr);
    }
  }
}

// The default rule tables of reductions.js.

module DefaultRules {
  import opened Expressions
  import opened Reductions

  /** Ids 1, 2, ... and every rule active and valid: the list a sequence of
      one-way newRule calls on valid rules builds from nothing. */
  predicate OneWayList(rs: seq<Identity>) {
    Numbered(rs) && forall i :: 0 <= i < |rs| ==> rs[i].isActive && rs[i].isValid
  }

  /** newRule(menv, list, l == r, description, true, true), as every
      default table calls it: appends the identity rewriting l to r, valid,
      active, with the next id. */
  method AddOneWay(reg: Registry, env: Env, l: string, r: string, description: string)
    requires '=' !in l && '=' !in r && OneWayList(reg.rules)
    modifies reg
    ensures |reg.rules| == |old(reg.rules)| + 1 && OneWayList(reg.rules)
    ensures reg.rules[..|old(reg.rules)|] == old(reg.rules)
    ensures reg.rules[|old(reg.rules)|] == Identity(env.parse(l), env.parse(r), description, true, true, |reg.rules|)
  {
    SplitEquation(l, r);
    reg.NewRule(env, l + "==" + r, description, true, true);
  }

  /** defaultReductions, rules 1-9: adding or subtracting zero, multiplying by zero or one. */
  method AddIdentityRules(reg: Registry, env: Env)
    requires OneWayList(reg.rules)
    modifies reg
    ensures |reg.rules| == |old(reg.rules)| + 9 && OneWayList(reg.rules)
  {
    AddOneWay(reg, env, "0+x", "x", "Additive Identity");
    AddOneWay(reg, env, "x+0", "x", "Additive Identity");
    AddOneWay(reg, env, "0-x", "-x", "Additive Inverse");
    AddOneWay(reg, env, "x-0", "x", "Additive Identity");
    AddOneWay(reg, env, "x+-(0)", "x", "Additive Identity");
    AddOneWay(reg, env, "0*x", "0", "Multiply by Zero");
    AddOneWay(reg, env, "x*0", "0", "Multiply by Zero");
    AddOneWay(reg, env, "1*x", "x", "Multiplicative Identity");
    AddOneWay(reg, env, "x*1", "x", "Multiplicative Identity");
  }

  /** defaultReductions, rules 10-15: zero divided by anything, division by one, and the trivial and negative powers. */
  method AddPowerRules(reg: Registry, env: Env)
    requires OneWayList(reg.rules)
    modifies reg
    ensures |reg.rules| == |old(reg.rules)| + 6 && OneWayList(reg.rules)
  {
    AddOneWay(reg, env, "0/x", "0", "Multiply by Zero");
    AddOneWay(reg, env, "x/1", "x", "Divide by One");
    AddOneWay(reg, env, "x^1", "x", "First Power");
    AddOneWay(reg, env, "x^0", "1", "Zero Power");
    AddOneWay(reg, env, "x^(-a)", "1/(x^a)", "Negative Power");
    AddOneWay(reg, env, "1^x", "1", "One to a Power");
  }

  /** defaultReductions, rules 16-21: multiplying by minus one, cancelling additive inverses, subtraction. */
  method AddSignRules(reg: Registry, env: Env)
    requires OneWayList(reg.rules)
    modifies reg
    ensures |reg.rules| == |old(reg.rules)| + 6 && OneWayList(reg.rules)
  {
    AddOneWay(reg, env, "-1*x", "-x", "Multiplicative Identity");
    AddOneWay(reg, env, "x*-1", "-x", "Multiplicative Identity");
    AddOneWay(reg, env, "x-x", "0", "Additive Inverses Cancel");
    AddOneWay(reg, env, "x+-x", "0", "Additive Inverses Cancel");
    AddOneWay(reg, env, "-x+x", "0", "Additive Inverses Cancel");
    AddOneWay(reg, env, "x+(-y)", "x-y", "Subtraction");
  }

  /** defaultReductions, rules 22-28: moving negations outward and double inverses. */
  method AddNegationRules(reg: Registry, env: Env)
    requires OneWayList(reg.rules)
    modifies reg
    ensures |reg.rules| == |old(reg.rules)| + 7 && OneWayList(reg.rules)
  {
    AddOneWay(reg, env, "(-x)+(-y)", "-(x+y)", "Factor Negation from Addition");
    AddOneWay(reg, env, "x-(-y)", "x+y", "Additive Inverse's Inverse");
    AddOneWay(reg, env, "x*(-y)", "(-x)*y", "Factor Negation from Multiplication");
    AddOneWay(reg, env, "(-x)/y", "-(x/y)", "Factor Negation from Multiplication");
    AddOneWay(reg, env, "x/(-y)", "-(x/y)", "Factor Negation from Multiplication");
    AddOneWay(reg, env, "-(-x)", "x", "Additive Inverse's Inverse");
    AddOneWay(reg, env, "/(/x)", "x", "Multiplicative Inverse's Inverse");
  }

  /** defaultReductions(menv): 28 one-way valid rules numbered 1 to 28, all active. */
  method DefaultReductions(env: Env) returns (reg: Registry)
    ensures fresh(reg) && |reg.rules| == 28 && OneWayList(reg.rules)
  {
    reg := new Registry();
    AddIdentityRules(reg, env);
    AddPowerRules(reg, env);
    AddSignRules(reg, env);
    AddNegationRules(reg, env);
  }

  /** defaultSumReductions, rules 1-7: dropping zero terms and cancelling opposite terms. */
  method AddSumCancellations(reg: Registry, env: Env)
    requires OneWayList(reg.rules)
    modifies reg
    ensures |reg.rules| == |old(reg.rules)| + 7 && OneWayList(reg.rules)
  {
    AddOneWay(reg, env, "a+0", "a", "Simplify Addition by Zero");
    AddOneWay(reg, env, "0+a", "a", "Simplify Addition by Zero");
    AddOneWay(reg, env, "a-a", "0", "Cancel Additive Inverses");
    AddOneWay(reg, env, "a+-a", "0", "Cancel Additive Inverses");
    AddOneWay(reg, env, "-a+a", "0", "Cancel Additive Inverses");
    AddOneWay(reg, env, "a*b+-a*b", "0", "Cancel Additive Inverses");
    AddOneWay(reg, env, "-a*b+a*b", "0", "Cancel Additive Inverses");
  }

  /** defaultSumReductions, rules 8-11: distributing products over sums and differences. */
  method AddDistributions(reg: Registry, env: Env)
    requires OneWayList(reg.rules)
    modifies reg
    ensures |reg.rules| == |old(reg.rules)| + 4 && OneWayList(reg.rules)
  {
    AddOneWay(reg, env, "a*(b+c)", "a*b+a*c", "Expand Products by Distributing");
    AddOneWay(reg, env, "(a+b)*c", "a*c+b*c", "Expand Products by Distributing");
    AddOneWay(reg, env, "a*(b-c)", "a*b-a*c", "Expand Products by Distributing");
    AddOneWay(reg, env, "(a-b)*c", "a*c-b*c", "Expand Products by Distributing");
  }

  /** defaultSumReductions(menv): 11 one-way valid rules numbered 1 to 11, all active. */
  method DefaultSumReductions(env: Env) returns (reg: Registry)
    ensures fresh(reg) && |reg.rules| == 11 && OneWayList(reg.rules)
  {
    reg := new Registry();
    AddSumCancellations(reg, env);
    AddDistributions(reg, env);
  }

  /** defaultProductReductions, rules 1-10: multiplying by zero or one and cancelling common factors. */
  method AddFactorCancellations(reg: Registry, env: Env)
    requires OneWayList(reg.rules)
    modifies reg
    ensures |reg.rules| == |old(reg.rules)| + 10 && OneWayList(reg.rules)
  {
    AddOneWay(reg, env, "0*a", "0", "Simplify Multiplication by Zero");
    AddOneWay(reg, env, "a*0", "0", "Simplify Multiplication by Zero");
    AddOneWay(reg, env, "1*a", "a", "Simplify Multiplication by One");
    AddOneWay(reg, env, "a*1", "a", "Simplify Multiplication by One");
    AddOneWay(reg, env, "a/a", "1", "Cancel Multiplicative Inverses");
    AddOneWay(reg, env, "a*/a", "1", "Cancel Multiplicative Inverses");
    AddOneWay(reg, env, "/a*a", "1", "Cancel Multiplicative Inverses");
    AddOneWay(reg, env, "(a*b)/(a*c)", "b/c", "Cancel Common Factors");
    AddOneWay(reg, env, "a^m/a^n", "a^(m-n)", "Cancel Common Factors");
    AddOneWay(reg, env, "(a^m*b)/(a^n*c)", "(a^(m-n)*b)/c", "Cancel Common Factors");
  }

  /** defaultProductReductions, rules 11-18: products of common terms as powers and positive powers. */
  method AddPowerProducts(reg: Registry, env: Env)
    requires OneWayList(reg.rules)
    modifies reg
    ensures |reg.rules| == |old(reg.rules)| + 8 && OneWayList(reg.rules)
  {
    AddOneWay(reg, env, "a*a", "a^2", "Write Products of Common Terms as Powers");
    AddOneWay(reg, env, "a*a^n", "a^(n+1)", "Write Products of Common Terms as Powers");
    AddOneWay(reg, env, "a^n*a", "a^(n+1)", "Write Products of Common Terms as Powers");
    AddOneWay(reg, env, "a^m*a^n", "a^(m+n)", "Write Products of Common Terms as Powers");
    AddOneWay(reg, env, "(a^-m*b)/c", "b/(a^m*c)", "Rewrite Using Positive Powers");
    AddOneWay(reg, env, "(b*a^-m)/c", "b/(a^m*c)", "Rewrite Using Positive Powers");
    AddOneWay(reg, env, "b/(a^-m*c)", "(a^m*b)/c", "Rewrite Using Positive Powers");
    AddOneWay(reg, env, "b/(c*a^-m)", "(a^m*b)/c", "Rewrite Using Positive Powers");
  }

  /** defaultProductReductions(menv): 18 one-way valid rules numbered 1 to 18, all active. */
  method DefaultProductReductions(env: Env) returns (reg: Registry)
    ensures fresh(reg) && |reg.rules| == 18 && OneWayList(reg.rules)
  {
    reg := new Registry();
    AddFactorCancellations(reg, env);
    AddPowerProducts(reg, env);
  }
}
