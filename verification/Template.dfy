/**
  Template expansion: russ_str_resolve in str.c. A reference is ${name}; the
  search for its end starts after the first character of the name.
 */
module Template {
  import opened Bytes
  import opened SArray
  import opened Str

  const FINAL_SIZE := 16000
  const NAME_SIZE := 256

  datatype Token = Text(text: string) | Ref(name: string)

  // The template from p on; none if a reference is not ended or its name is too long.
  function Tokens(s: string, p: nat): Option<seq<Token>>
    requires p <= |s|
    decreases |s| - p
  {
    match Find(s, "${", p)
    case None => Some([Text(s[p..])])
    case Some(k) =>
      var n := k + 2;
      if n == |s| then None
      else match Find(s, "}", n + 1)
        case None => None
        case Some(e) =>
          if e - n + 1 > NAME_SIZE then None
          else match Tokens(s, e + 1)
            case None => None
            case Some(ts) => Some([Text(s[p..k]), Ref(s[n..e])] + ts)
  }

  function Unparsed(t: Token): string {
    match t
    case Text(text) => text
    case Ref(name) => "${" + name + "}"
  }

  function Unparse(ts: seq<Token>): string {
    if ts == [] then "" else Unparsed(ts[0]) + Unparse(ts[1..])
  }

  // A name that is not listed stands for nothing.
  function Value(name: string, vars: seq<string>): string {
    match Suffix(vars, name + "=")
    case None => ""
    case Some(v) => v
  }

  function Rendered(t: Token, vars: seq<string>): string {
    match t
    case Text(text) => text
    case Ref(name) => Value(name, vars)
  }

  // Values are not expanded again.
  function Render(ts: seq<Token>, vars: seq<string>): string {
    if ts == [] then "" else Rendered(ts[0], vars) + Render(ts[1..], vars)
  }

  lemma UnparseBoth(text: string, name: string, rest: seq<Token>)
    ensures Unparse([Text(text), Ref(name)] + rest) == text + ("${" + name + "}") + Unparse(rest)
  {
    var ts := [Text(text), Ref(name)] + rest;
    assert ts[1..] == [Ref(name)] + rest && ts[1..][1..] == rest;
  }

  lemma RenderBoth(text: string, name: string, rest: seq<Token>, vars: seq<string>)
    ensures Render([Text(text), Ref(name)] + rest, vars) == text + Value(name, vars) + Render(rest, vars)
  {
    var ts := [Text(text), Ref(name)] + rest;
    assert ts[1..] == [Ref(name)] + rest && ts[1..][1..] == rest;
  }

  lemma AroundReference(s: string, p: nat, k: nat, e: nat)
    requires p <= k && k + 2 <= e < |s| && s[k..k + 2] == "${" && s[e..e + 1] == "}"
    ensures s[p..] == s[p..k] + ("${" + s[k + 2..e] + "}") + s[e + 1..]
  {
    assert s[p..] == s[p..k] + (s[k..k + 2] + s[k + 2..e] + s[e..e + 1]) + s[e + 1..];
  }

  predicate WellCut(t: Token) {
    if t.Text? then Find(t.text, "${", 0) == None else 0 < |t.name| < NAME_SIZE
  }

  predicate AllWellCut(ts: seq<Token>) {
    ts == [] || (WellCut(ts[0]) && AllWellCut(ts[1..]))
  }

  lemma WellCutBoth(text: string, name: string, rest: seq<Token>)
    requires WellCut(Text(text)) && WellCut(Ref(name)) && AllWellCut(rest)
    ensures AllWellCut([Text(text), Ref(name)] + rest)
  {
    var ts := [Text(text), Ref(name)] + rest;
    assert ts[1..] == [Ref(name)] + rest && ts[1..][1..] == rest;
  }

  lemma TextIsPlain(s: string, p: nat, k: nat)
    requires p <= k <= |s| && forall i :: p <= i < k ==> !OccursAt(s, "${", i)
    ensures WellCut(Text(s[p..k]))
  {
    NotBefore(s, "${", p, k);
    FindIsFirst(s[p..k], "${", 0);
  }

  // The tokens are the string, text holds no reference, and names are short.
  predicate Faithful(s: string, ts: seq<Token>) {
    Unparse(ts) == s && AllWellCut(ts)
  }

  lemma FaithfulStep(s: string, p: nat, k: nat, e: nat, rest: seq<Token>)
    requires p <= k && k + 3 <= e < |s| && OccursAt(s, "${", k) && OccursAt(s, "}", e) && e - k - 1 <= NAME_SIZE
    requires WellCut(Text(s[p..k])) && Faithful(s[e + 1..], rest)
    ensures Faithful(s[p..], [Text(s[p..k]), Ref(s[k + 2..e])] + rest)
  {
    UnparseBoth(s[p..k], s[k + 2..e], rest);
    WellCutBoth(s[p..k], s[k + 2..e], rest);
    AroundReference(s, p, k, e);
  }

  // The template goes on with a reference from k to e.
  predicate RefAt(s: string, p: nat, k: nat, e: nat) {
    && p <= k && k + 3 <= e < |s| && e - k - 1 <= NAME_SIZE
    && Find(s, "${", p) == Some(k) && Find(s, "}", k + 3) == Some(e)
  }

  function Before(text: string, name: string, ts: Option<seq<Token>>): Option<seq<Token>> {
    if ts.None? then None else Some([Text(text), Ref(name)] + ts.value)
  }

  lemma TokensAt(s: string, p: nat, k: nat, e: nat)
    requires RefAt(s, p, k, e)
    ensures Tokens(s, p) == Before(s[p..k], s[k + 2..e], Tokens(s, e + 1))
  {
  }

  lemma TokensFound(s: string, p: nat) returns (k: nat, e: nat)
    requires p <= |s| && Tokens(s, p).Some? && Find(s, "${", p).Some?
    ensures RefAt(s, p, k, e) && Tokens(s, e + 1).Some?
  {
    k := Find(s, "${", p).value;
    e := Find(s, "}", k + 3).value;
  }

  lemma RefIsThere(s: string, p: nat, k: nat, e: nat)
    requires RefAt(s, p, k, e)
    ensures WellCut(Text(s[p..k])) && OccursAt(s, "${", k) && OccursAt(s, "}", e)
  {
    FindIsFirst(s, "${", p);
    FindIsFirst(s, "}", k + 3);
    TextIsPlain(s, p, k);
  }

  lemma LastIsText(s: string, p: nat)
    requires p <= |s| && Find(s, "${", p).None?
    ensures Faithful(s[p..], [Text(s[p..])])
  {
    FindIsFirst(s, "${", p);
    TextIsPlain(s, p, |s|);
    assert s[p..|s|] == s[p..];
    assert [Text(s[p..])][1..] == [];
  }

  /** The tokens are the template: written out again they give it, and nothing in their text is a reference. */
  lemma {:induction false} TokensAreTheTemplate(s: string, p: nat)
    requires p <= |s| && Tokens(s, p).Some?
    ensures Faithful(s[p..], Tokens(s, p).value)
    decreases |s| - p
  {
    hide Find;
    if Find(s, "${", p).None? {
      LastIsText(s, p);
    } else {
      var k, e := TokensFound(s, p);
      TokensAt(s, p, k, e);
      RefIsThere(s, p, k, e);
      TokensAreTheTemplate(s, e + 1);
      FaithfulStep(s, p, k, e, Tokens(s, e + 1).value);
    }
  }

  function Expanded(ts: Option<seq<Token>>, vars: seq<string>): Option<string> {
    if ts.None? then None else Some(Render(ts.value, vars))
  }

  // What is done so far and what is still to come make the whole.
  predicate Expanding(whole: Option<string>, ts: Option<seq<Token>>, vars: seq<string>, done: string) {
    whole == match Expanded(ts, vars) { case None => None case Some(x) => Some(done + x) }
  }

  lemma ExpandingStarts(ts: Option<seq<Token>>, vars: seq<string>)
    ensures Expanding(Expanded(ts, vars), ts, vars, "")
  {
    var x := Expanded(ts, vars);
    if x.Some? { assert "" + x.value == x.value; }
  }

  lemma ExpandingEnds(whole: Option<string>, text: string, vars: seq<string>, done: string)
    requires Expanding(whole, Some([Text(text)]), vars, done)
    ensures whole == Some(done + text)
  {
    assert [Text(text)][1..] == [];
    assert Render([Text(text)], vars) == text;
  }

  lemma ExpandingFails(whole: Option<string>, vars: seq<string>, done: string)
    requires Expanding(whole, None, vars, done)
    ensures whole == None
  {
  }

  // A reference: the text before it and its value, then the rest.
  lemma ExpandingGoesOn(whole: Option<string>, text: string, name: string, rest: Option<seq<Token>>,
                        vars: seq<string>, done: string)
    requires Expanding(whole, Before(text, name, rest), vars, done)
    ensures Expanding(whole, rest, vars, done + text + Value(name, vars))
  {
    if rest.Some? {
      RenderBoth(text, name, rest.value, vars);
      RegroupFour(done, text, Value(name, vars), Render(rest.value, vars));
    }
  }

  lemma RegroupFour(a: string, b: string, c: string, d: string)
    ensures a + (b + c + d) == a + b + c + d
  {
  }

  // Too long already: the whole will not fit.
  lemma ExpandingTooLong(whole: Option<string>, ts: Option<seq<Token>>, vars: seq<string>, done: string)
    requires Expanding(whole, ts, vars, done) && |done| >= FINAL_SIZE
    ensures whole.Some? ==> |whole.value| >= FINAL_SIZE
  {
  }

  // ----- what a template stands for -----

  function Expansion(s: string, vars: seq<string>): Option<string> {
    Expanded(Tokens(s, 0), vars)
  }

  lemma {:induction false} FindShift(s: string, ss: string, p: nat, q: nat)
    requires p <= q <= |s|
    ensures Find(s[p..], ss, q - p) == match Find(s, ss, q) { case None => None case Some(k) => Some(k - p) }
    decreases |s| - q
  {
    var t := s[p..];
    assert q + |ss| <= |s| ==> t[q - p..q - p + |ss|] == s[q..q + |ss|];
    if !OccursAt(s, ss, q) && q < |s| {
      FindShift(s, ss, p, q + 1);
    }
  }

  // Where the next reference starts and ends.
  function NextAt(s: string, p: nat): Option<(nat, nat)>
    requires p <= |s|
  {
    match Find(s, "${", p)
    case None => None
    case Some(k) =>
      if k + 2 == |s| then None
      else match Find(s, "}", k + 3)
        case None => None
        case Some(e) => if e - k - 1 > NAME_SIZE then None else Some((k, e))
  }

  lemma TokensByNext(s: string, p: nat)
    requires p <= |s|
    ensures Find(s, "${", p).None? ==> Tokens(s, p) == Some([Text(s[p..])])
    ensures Find(s, "${", p).Some? && NextAt(s, p).None? ==> Tokens(s, p) == None
    ensures NextAt(s, p).Some? ==>
      var (k, e) := NextAt(s, p).value;
      RefAt(s, p, k, e) && Tokens(s, p) == Before(s[p..k], s[k + 2..e], Tokens(s, e + 1))
  {
    hide Find, OccursAt;
  }

  lemma NextShift(s: string, p: nat, q: nat)
    requires p <= q <= |s|
    ensures Find(s[p..], "${", q - p).None? <==> Find(s, "${", q).None?
    ensures NextAt(s[p..], q - p) == match NextAt(s, q) { case None => None case Some((k, e)) => Some((k - p, e - p)) }
  {
    hide Find;
    FindShift(s, "${", p, q);
    var r := Find(s, "${", q);
    if r.Some? && r.value + 2 < |s| {
      FindShift(s, "}", p, r.value + 3);
    }
  }

  lemma {:induction false} TokensShift(s: string, p: nat, q: nat)
    requires p <= q <= |s|
    ensures Tokens(s[p..], q - p) == Tokens(s, q)
    decreases |s| - q
  {
    hide Find, Tokens, NextAt;
    var t := s[p..];
    TokensByNext(s, q);
    TokensByNext(t, q - p);
    NextShift(s, p, q);
    assert t[q - p..] == s[q..];
    var r := NextAt(s, q);
    if r.Some? {
      var (k, e) := r.value;
      TokensShift(s, p, e + 1);
      assert t[q - p..k - p] == s[q..k] && t[k - p + 2..e - p] == s[k + 2..e];
    }
  }

  /** Text without a reference stands for itself. */
  lemma PlainExpands(text: string, vars: seq<string>)
    requires !Within(text, "${")
    ensures Expansion(text, vars) == Some(text)
  {
    hide Find;
    FindIsFirst(text, "${", 0);
    assert text[0..] == text;
    assert [Text(text)][1..] == [];
    assert Tokens(text, 0) == Some([Text(text)]);
    assert Render([Text(text)], vars) == text + Render([], vars) == text;
  }

  // The first reference is where the text before it ends.
  lemma NoneEarlier(text: string, rest: string, i: nat)
    requires !Within(text, "${") && i < |text|
    ensures !OccursAt(text + ("${" + rest), "${", i)
  {
    var s := text + ("${" + rest);
    if i + 2 <= |text| {
      assert s[i..i + 2] == text[i..i + 2];
      assert !OccursAt(text, "${", i);
    } else {
      assert s[i..i + 2][1] == '$';
    }
  }

  lemma FirstReference(text: string, rest: string)
    requires !Within(text, "${")
    ensures Find(text + ("${" + rest), "${", 0) == Some(|text|)
  {
    hide Find, OccursAt, Within;
    var s := text + ("${" + rest);
    var r := Find(s, "${", 0);
    FindIsFirst(s, "${", 0);
    ReferenceThere(text, rest);
    if r.Some? && r.value < |text| { NoneEarlier(text, rest, r.value); }
  }

  lemma ReferenceThere(text: string, rest: string)
    ensures OccursAt(text + ("${" + rest), "${", |text|)
  {
    var s := text + ("${" + rest);
    assert s[|text|..|text| + 2] == "${";
  }

  // The end of a reference is the first '}' after the first character of its name.
  lemma ReferenceEnd(s: string, n: nat, e: nat)
    requires n <= e < |s| && s[e] == '}' && forall i :: n <= i < e ==> s[i] != '}'
    ensures Find(s, "}", n) == Some(e)
  {
    FoundAfter(s, '}', n, e);
  }

  /**
    A reference stands for its value, between what stands before it and what the
    rest stands for; with a name of more than 255 characters the template fails.
   */
  lemma ReferenceExpands(text: string, name: string, rest: string, vars: seq<string>)
    requires !Within(text, "${") && name != "" && '}' !in name[1..]
    ensures Expansion(text + ("${" + (name + "}" + rest)), vars) ==
      if |name| > 255 || Expansion(rest, vars).None? then None
      else Some(text + Value(name, vars) + Expansion(rest, vars).value)
  {
    hide Find, Within, Value, Render, Tokens;
    var s := text + ("${" + (name + "}" + rest));
    var k, e := |text|, |text| + 2 + |name|;
    ReferenceParts(text, name, rest);
    TokensShift(s, e + 1, e + 1);
    if |name| <= 255 {
      TokensAt(s, 0, k, e);
      var ts := Tokens(rest, 0);
      if ts.Some? { RenderBoth(text, name, ts.value, vars); }
    } else {
      LongNameFails(s, k, e);
    }
  }

  lemma LongNameFails(s: string, k: nat, e: nat)
    requires k + 3 <= e < |s| && Find(s, "${", 0) == Some(k) && Find(s, "}", k + 3) == Some(e) && e - k - 1 > NAME_SIZE
    ensures Tokens(s, 0) == None
  {
  }

  lemma ReferenceParts(text: string, name: string, rest: string)
    requires !Within(text, "${") && name != "" && '}' !in name[1..]
    ensures var s, k, e := text + ("${" + (name + "}" + rest)), |text|, |text| + 2 + |name|;
      && e < |s| && Find(s, "${", 0) == Some(k) && Find(s, "}", k + 3) == Some(e)
      && s[0..k] == text && s[k + 2..e] == name && s[e + 1..] == rest
  {
    hide Find, Within;
    var s, k, e := text + ("${" + (name + "}" + rest)), |text|, |text| + 2 + |name|;
    FirstReference(text, name + "}" + rest);
    assert s[e] == '}' && s[k + 2..e] == name;
    forall i | k + 3 <= i < e ensures s[i] != '}' {
      assert s[i] == s[k + 2..e][i - k - 2] == name[1..][i - k - 3];
    }
    ReferenceEnd(s, k + 3, e);
  }

  /** A reference that is not ended fails the template. */
  lemma UnendedFails(text: string, name: string, vars: seq<string>)
    requires !Within(text, "${") && (name == "" || '}' !in name[1..])
    ensures Expansion(text + ("${" + name), vars) == None
  {
    var s := text + ("${" + name);
    var k := |text|;
    FirstReference(text, name);
    if name != "" {
      forall i | k + 3 <= i < |s| ensures s[i] != '}' {
        assert s[i] == name[1..][i - k - 3];
      }
      FoundAfter(s, '}', k + 3, |s|);
    }
  }

  /** The value is what follows the name and '=' in the first entry that starts so; without one it is nothing. */
  lemma ValueOfName(name: string, v: string, before: seq<string>, after: seq<string>)
    requires forall i :: 0 <= i < |before| ==> !(name + "=" <= before[i])
    ensures Value(name, before + [name + "=" + v] + after) == v && Value(name, before) == ""
  {
    var vars := before + [name + "=" + v] + after;
    var k := |before|;
    assert vars[k] == name + "=" + v && name + "=" <= vars[k];
    assert forall i :: 0 <= i < k ==> vars[i] == before[i];
    assert FindPrefix(vars, name + "=") == k;
    assert vars[k][|name + "="|..] == v;
  }

  method Put(b: array<char>, fp: nat, x: string)
    requires fp + |x| <= b.Length
    modifies b
    ensures b[..fp + |x|] == old(b[..fp]) + x
  {
    ghost var was := b[..];
    forall i | 0 <= i < |x| {
      b[fp + i] := x[i];
    }
    assert b[..fp] == was[..fp];
    assert b[fp..fp + |x|] == x;
    assert b[..fp + |x|] == b[..fp] + b[fp..fp + |x|];
  }

  // The text before a reference, and its value, into the buffer; -1 if they do not fit.
  method PutReference(b: array<char>, fp: nat, s: string, sp: nat, start: nat, end: nat,
                      arr: array<Option<string>>, ghost vars: seq<string>)
    returns (now: int)
    requires sp <= start && start + 2 <= end <= |s| && fp <= b.Length == FINAL_SIZE && Holds(arr[..], vars)
    modifies b
    ensures var done := old(b[..fp]) + s[sp..start] + Value(s[start + 2..end], vars);
      && (now >= 0 ==> now == |done| <= b.Length && b[..now] == done)
      && (now < 0 ==> |done| >= FINAL_SIZE)
  {
    now := fp;
    ghost var before := b[..fp];
    if start > sp {
      if start - sp > FINAL_SIZE - now {
        return -1;
      }
      Put(b, now, s[sp..start]);
      now := now + (start - sp);
    }
    assert b[..now] == before + s[sp..start];
    var value := GetSuffix(arr, vars, s[start + 2..end] + "=");
    if value.Some? {
      if now + |value.value| + 1 > FINAL_SIZE {
        return -1;
      }
      Put(b, now, value.value);
      now := now + |value.value|;
    }
  }

  datatype Next = Last | Unended | Reference(k: nat, e: nat)

  // The next reference.
  method NextRef(s: string, sp: nat) returns (next: Next)
    requires sp <= |s|
    ensures next.Last? ==> Tokens(s, sp) == Some([Text(s[sp..])])
    ensures next.Unended? ==> Tokens(s, sp) == None
    ensures next.Reference? ==> sp <= next.k && next.k + 3 <= next.e < |s|
    ensures next.Reference? ==> Tokens(s, sp) == Before(s[sp..next.k], s[next.k + 2..next.e], Tokens(s, next.e + 1))
  {
    var start := Find(s, "${", sp);
    if start.None? {
      return Last;
    }
    var k := start.value;
    var end := if k + 2 == |s| then None else Find(s, "}", k + 3);
    if end.None? || end.value - k - 1 > NAME_SIZE {
      return Unended;
    }
    TokensAt(s, sp, k, end.value);
    next := Reference(k, end.value);
  }

  /**
    Expands a template. It fails exactly when a reference is not ended, a name
    is too long, or the result with its NUL does not fit.
   */
  method Resolve(s: string, arr: array<Option<string>>, ghost vars: seq<string>) returns (r: Option<string>)
    requires Holds(arr[..], vars)
    ensures var x := Expansion(s, vars);
      r == if x.Some? && |x.value| + 1 <= FINAL_SIZE then x else None
  {
    hide Tokens, Find, Expanded, Render, Value, Before;
    ghost var ts := Tokens(s, 0);
    ghost var whole := Expanded(ts, vars);
    var final := new char[FINAL_SIZE];
    var sp, fp := 0, 0;
    ExpandingStarts(ts, vars);
    assert final[..0] == "";
    while sp < |s| + 1
      invariant 0 <= sp <= |s| && 0 <= fp <= FINAL_SIZE
      invariant ts == Tokens(s, sp) && Expanding(whole, ts, vars, final[..fp])
      decreases |s| - sp
    {
      var next := NextRef(s, sp);
      if next.Last? {
        break;
      } else if next.Unended? {
        ExpandingFails(whole, vars, final[..fp]);
        return None;
      }
      ghost var text, name := s[sp..next.k], s[next.k + 2..next.e];
      ts := Tokens(s, next.e + 1);
      ExpandingGoesOn(whole, text, name, ts, vars, final[..fp]);
      ghost var done := final[..fp] + text + Value(name, vars);
      var now := PutReference(final, fp, s, sp, next.k, next.e, arr, vars);
      if now < 0 {
        ExpandingTooLong(whole, ts, vars, done);
        return None;
      }
      sp, fp := next.e + 1, now;
    }
    r := Finish(final, fp, s, sp, whole, vars);
  }

  // The text after the last reference.
  method Finish(b: array<char>, fp: nat, s: string, sp: nat, ghost whole: Option<string>, ghost vars: seq<string>)
    returns (r: Option<string>)
    requires b.Length == FINAL_SIZE && fp <= FINAL_SIZE && sp <= |s|
    requires Expanding(whole, Some([Text(s[sp..])]), vars, b[..fp])
    modifies b
    ensures whole.Some? && r == if |whole.value| + 1 <= FINAL_SIZE then whole else None
  {
    ExpandingEnds(whole, s[sp..], vars, b[..fp]);
    if |s| + 1 - sp > FINAL_SIZE - fp {
      return None;
    }
    ghost var done := b[..fp];
    Put(b, fp, s[sp..] + ['\0']);
    var end := fp + (|s| + 1 - sp);
    assert b[..end - 1] == b[..end][..end - 1] == done + s[sp..];
    r := Some(b[..end - 1]);
  }
}
