/** The rewriting of %i in commands of the configuration file. */
module CommandExpand {
  import opened Options

  predicate AtVar(s: string) {
    |s| >= 2 && s[0] == '%' && s[1] == 'i'
  }

  /** "%i" occurs in s. */
  predicate HasVar(s: string) {
    s != "" && (AtVar(s) || HasVar(s[1..]))
  }

  /** strstr(s, "%i") as an offset. */
  function FirstVar(s: string): (p: nat)
    requires HasVar(s)
    ensures p + 2 <= |s| && AtVar(s[p..])
  {
    if AtVar(s) then 0 else 1 + FirstVar(s[1..])
  }

  /** One turn of the loop: the first %i is cut out and the name put in its place. */
  function Replaced(s: string, name: string): string
    requires HasVar(s)
  {
    s[..FirstVar(s)] + name + s[FirstVar(s) + 2..]
  }

  /** The buffer after n turns, or when the loop has ended before. */
  function After(s: string, name: string, n: nat): string
    decreases n
  {
    if n == 0 || !HasVar(s) then s else After(Replaced(s, name), name, n - 1)
  }

  /** The loop ends. */
  ghost predicate Ends(s: string, name: string) {
    exists n :: !HasVar(After(s, name, n))
  }

  // ---- where %i can come about ----

  lemma {:induction false} HasVarAppend(u: string, v: string)
    ensures HasVar(u + v) <==> HasVar(u) || HasVar(v) || (u != "" && v != "" && u[|u| - 1] == '%' && v[0] == 'i')
  {
    if u == "" {
      assert u + v == v;
    } else {
      assert (u + v)[1..] == u[1..] + v;
      HasVarAppend(u[1..], v);
    }
  }

  predicate VarAt(s: string, p: int) {
    0 <= p && p + 1 < |s| && s[p] == '%' && s[p + 1] == 'i'
  }

  lemma {:induction false} NoVarAt(s: string)
    ensures !HasVar(s) ==> forall p :: !VarAt(s, p)
  {
    if s != "" {
      NoVarAt(s[1..]);
      if !HasVar(s) {
        forall p ensures !VarAt(s, p) {
          assert !VarAt(s[1..], p - 1);
        }
      }
    }
  }

  lemma {:induction false} FirstVarIs(s: string)
    requires HasVar(s)
    ensures var p := FirstVar(s);
      VarAt(s, p) && !HasVar(s[..p]) && forall q: int :: q < p ==> !VarAt(s, q)
  {
    if !AtVar(s) {
      FirstVarIs(s[1..]);
      var p := FirstVar(s);
      assert s[..p] == [s[0]] + s[1..p] && s[1..][..p - 1] == s[1..p];
      HasVarAppend([s[0]], s[1..p]);
      forall q: int | q < p ensures !VarAt(s, q) {
        assert !VarAt(s[1..], q - 1);
      }
    }
  }

  /** The text around the %i that a turn replaces. */
  lemma TurnParts(s: string, name: string) returns (u: string, v: string)
    requires HasVar(s)
    ensures s == u + "%i" + v && !HasVar(u) && forall q: int :: q < |u| ==> !VarAt(s, q)
    ensures Replaced(s, name) == u + name + v
  {
    var p := FirstVar(s);
    FirstVarIs(s);
    u, v := s[..p], s[p + 2..];
  }

  lemma Regroup(u: string, w: string, v: string)
    ensures u + (w + v) == u + w + v
  {
  }

  // ---- which loops end ----

  predicate StartsTwice(name: string) {
    |name| >= 2 && name[0] == 'i' && name[1] == 'i'
  }

  predicate EndsTwice(name: string) {
    |name| >= 2 && name[|name| - 2] == '%' && name[|name| - 1] == '%'
  }

  /** A "%i" at q that another '%' precedes, that another 'i' follows, or that another "%i" follows. */
  predicate CrowdedAt(s: string, q: int) {
    VarAt(s, q) && ((q > 0 && s[q - 1] == '%') || (q + 2 < |s| && s[q + 2] == 'i') || VarAt(s, q + 2))
  }

  /** "%%i", "%ii" or "%i%i" occurs in s. */
  predicate Crowded(s: string) {
    exists q :: 0 <= q < |s| && CrowdedAt(s, q)
  }

  /** What a caller would have to check: there is nothing to replace, or the name contains no %i and
      either does not both begin with "ii" and end with "%%", or meets none of these in the command. */
  predicate LoopEnds(s: string, name: string) {
    !HasVar(s) || (!HasVar(name) && !(StartsTwice(name) && EndsTwice(name) && Crowded(s)))
  }

  // ---- names that do not end with "%%": a weight for every '%' ----

  /** How many 'i' a '%' in front of s may meet, when every '%' may put k in the place of one. */
  function Front(s: string, k: nat): nat {
    if s == "" then 0
    else if s[0] == 'i' then 1 + Front(s[1..], k)
    else if s[0] == '%' then k * Front(s[1..], k)
    else 0
  }

  /** How many turns the '%' of s are good for at most. */
  function Cost(s: string, k: nat): nat {
    if s == "" then 0
    else (if s[0] == '%' then Front(s[1..], k) else 0) + Cost(s[1..], k)
  }

  lemma MulMonotone(k: nat, a: nat, b: nat)
    requires a <= b
    ensures k * a <= k * b
  {
    assert k * b == k * a + k * (b - a);
  }

  lemma {:induction false} CostInContext(u: string, y: string, z: string, k: nat)
    requires Front(z, k) <= Front(y, k) && Cost(z, k) < Cost(y, k)
    ensures Front(u + z, k) <= Front(u + y, k) && Cost(u + z, k) < Cost(u + y, k)
  {
    if u == "" {
      assert u + y == y && u + z == z;
    } else {
      assert (u + y)[1..] == u[1..] + y && (u + z)[1..] == u[1..] + z;
      CostInContext(u[1..], y, z, k);
      MulMonotone(k, Front(u[1..] + z, k), Front(u[1..] + y, k));
    }
  }

  /** The number of 'i' at the beginning. */
  function Lead(s: string): nat {
    if s == "" || s[0] != 'i' then 0 else 1 + Lead(s[1..])
  }

  /** A run of '%' that something else follows meets no 'i'. */
  lemma {:induction false} BlockedRun(w: string, v: string, k: nat)
    requires w != "" && w[0] == '%' && !HasVar(w) && exists j :: 0 <= j < |w| && w[j] != '%'
    ensures Front(w + v, k) == 0
  {
    assert (w + v)[1..] == w[1..] + v;
    if w[1..] != "" && w[1] == '%' {
      assert w[1..][0] == '%';
      var j :| 0 <= j < |w| && w[j] != '%';
      assert w[1..][j - 1] != '%';
      BlockedRun(w[1..], v, k);
    } else {
      assert Front(w[1..] + v, k) == 0;
    }
  }

  /** What a name, or the end of one, contributes in front of v. */
  lemma {:induction false} NameCost(w: string, v: string, k: nat)
    requires !HasVar(w) && !EndsTwice(w) && k > 0
    ensures Front(w + v, k) <= k * Front(v, k) + Lead(w)
    ensures Cost(w + v, k) <= Cost(v, k) + Front(v, k)
  {
    if w == "" {
      assert w + v == v;
      MulMonotone(Front(v, k), 1, k);
    } else {
      assert (w + v)[1..] == w[1..] + v;
      NameCost(w[1..], v, k);
      if w[0] == '%' {
        if |w| == 1 {
          assert w[1..] + v == v;
        } else {
          assert exists j :: 0 <= j < |w| && w[j] != '%' by {
            assert w[|w| - 1] != '%' || w[|w| - 2] != '%';
          }
          BlockedRun(w, v, k);
          BlockedRest(w, v, k);
        }
      }
    }
  }

  lemma BlockedRest(w: string, v: string, k: nat)
    requires |w| > 1 && w[0] == '%' && !HasVar(w) && exists j :: 0 <= j < |w| && w[j] != '%'
    ensures Front(w[1..] + v, k) == 0
  {
    if w[1] == '%' {
      var j :| 0 <= j < |w| && w[j] != '%';
      assert w[1..][j - 1] != '%' && w[1..][0] == '%';
      BlockedRun(w[1..], v, k);
    }
  }

  /** Replacing any %i lowers the weight. */
  lemma CostDrops(u: string, v: string, name: string)
    requires !HasVar(name) && !EndsTwice(name)
    ensures var k := Lead(name) + 1; Cost(u + (name + v), k) < Cost(u + ("%i" + v), k)
  {
    var k := Lead(name) + 1;
    var y := "%i" + v;
    NameCost(name, v, k);
    assert y[1..] == "i" + v && y[1..][1..] == v;
    assert Front(y, k) == k * (1 + Front(v, k)) == k * Front(v, k) + k;
    CostInContext(u, y, name + v, k);
  }

  // ---- names that do not begin with "ii": the same, mirrored ----

  function Swap(c: char): char {
    if c == '%' then 'i' else if c == 'i' then '%' else c
  }

  /** Read backwards, with '%' and 'i' exchanged; "%i" is its own mirror image. */
  function Mirror(s: string): (m: string)
    ensures |m| == |s| && forall p :: 0 <= p < |s| ==> m[p] == Swap(s[|s| - 1 - p])
  {
    seq(|s|, p requires 0 <= p < |s| => Swap(s[|s| - 1 - p]))
  }

  lemma MirrorAppend(u: string, v: string)
    ensures Mirror(u + v) == Mirror(v) + Mirror(u)
  {
  }

  lemma MirrorParts(u: string, w: string, v: string)
    ensures Mirror(u + w + v) == Mirror(v) + (Mirror(w) + Mirror(u))
  {
    MirrorAppend(u + w, v);
    MirrorAppend(u, w);
  }

  lemma MirrorVar(s: string)
    ensures HasVar(Mirror(s)) ==> HasVar(s)
  {
    NoVarAt(s);
    var m := Mirror(s);
    if HasVar(m) {
      FirstVarIs(m);
      assert VarAt(s, |s| - 2 - FirstVar(m));
    }
  }

  // ---- names that do both: nothing new comes about between characters that are no neighbours ----

  /** The number of places where "%i" occurs. */
  function Vars(s: string): nat {
    if s == "" then 0 else (if AtVar(s) then 1 else 0) + Vars(s[1..])
  }

  function Between(u: string, v: string): nat {
    if u != "" && v != "" && u[|u| - 1] == '%' && v[0] == 'i' then 1 else 0
  }

  lemma {:induction false} VarsAppend(u: string, v: string)
    ensures Vars(u + v) == Vars(u) + Vars(v) + Between(u, v)
  {
    if u == "" {
      assert u + v == v;
    } else {
      assert (u + v)[1..] == u[1..] + v;
      VarsAppend(u[1..], v);
    }
  }

  lemma {:induction false} NoVars(s: string)
    requires !HasVar(s)
    ensures Vars(s) == 0
  {
    if s != "" {
      NoVars(s[1..]);
    }
  }

  /** The first %i of an uncrowded command stands between other characters. */
  lemma NotCrowded(s: string, u: string, v: string)
    requires s == u + "%i" + v && !Crowded(s)
    ensures u != "" ==> u[|u| - 1] != '%'
    ensures v != "" ==> v[0] != 'i'
    ensures !AtVar(v)
  {
    assert VarAt(s, |u|) && !CrowdedAt(s, |u|);
    assert AtVar(v) ==> VarAt(s, |u| + 2);
  }

  lemma VarsDrop(s: string, name: string, u: string, v: string)
    requires s == u + "%i" + v && !Crowded(s) && !HasVar(u)
    requires !HasVar(name) && StartsTwice(name) && EndsTwice(name)
    ensures Vars(u + name + v) < Vars(s) && !Crowded(u + name + v)
  {
    NotCrowded(s, u, v);
    VarsAppend(u + "%i", v);
    VarsAppend(u, "%i");
    VarsAppend(u + name, v);
    VarsAppend(u, name);
    NoVars(name);
    assert Vars("%i") == 1 by {
      assert "%i"[1..] == "i";
    }
    NoVarAt(name);
    NoVarAt(u);
    forall q ensures !CrowdedAt(u + name + v, q) {
      StaysUncrowded(s, name, u, v, q);
      assert !CrowdedAt(s, q - |name| + 2);
    }
  }

  /** Every %i of the new text was there before, further behind. */
  lemma VarMoves(s: string, name: string, u: string, v: string, q: int)
    requires s == u + "%i" + v && name != ""
    requires !VarAt(name, q - |u|) && !VarAt(u, q)
    requires u != "" ==> u[|u| - 1] != '%'
    requires v != "" ==> v[0] != 'i'
    requires !AtVar(v)
    ensures VarAt(u + name + v, q) ==> q > |u| + |name| && VarAt(s, q - |name| + 2)
  {
    assert !VarAt(v, 0);
  }

  lemma StaysUncrowded(s: string, name: string, u: string, v: string, q: int)
    requires s == u + "%i" + v && name != ""
    requires (forall p :: !VarAt(name, p)) && (forall p :: !VarAt(u, p))
    requires u != "" ==> u[|u| - 1] != '%'
    requires v != "" ==> v[0] != 'i'
    requires !AtVar(v)
    ensures CrowdedAt(u + name + v, q) ==> CrowdedAt(s, q - |name| + 2)
  {
    VarMoves(s, name, u, v, q);
    VarMoves(s, name, u, v, q + 2);
  }

  // ---- the measure of the loop ----

  function Measure(s: string, name: string): nat {
    if !EndsTwice(name) then Cost(s, Lead(name) + 1)
    else if !StartsTwice(name) then Cost(Mirror(s), Lead(Mirror(name)) + 1)
    else Vars(s)
  }

  lemma MirrorDrops(u: string, v: string, name: string)
    requires !HasVar(name) && !StartsTwice(name)
    ensures var k := Lead(Mirror(name)) + 1; Cost(Mirror(u + name + v), k) < Cost(Mirror(u + "%i" + v), k)
  {
    MirrorVar(name);
    CostDrops(Mirror(v), Mirror(u), Mirror(name));
    MirrorParts(u, "%i", v);
    MirrorParts(u, name, v);
    assert Mirror("%i") == "%i";
  }

  lemma PartsDrop(s: string, u: string, v: string, name: string)
    requires s == u + "%i" + v && !HasVar(u) && !HasVar(name)
    requires !(StartsTwice(name) && EndsTwice(name) && Crowded(s))
    ensures Measure(u + name + v, name) < Measure(s, name)
    ensures !(StartsTwice(name) && EndsTwice(name) && Crowded(u + name + v))
  {
    if !EndsTwice(name) {
      CostDrops(u, v, name);
      Regroup(u, "%i", v);
      Regroup(u, name, v);
    } else if !StartsTwice(name) {
      MirrorDrops(u, v, name);
    } else {
      VarsDrop(s, name, u, v);
    }
  }

  lemma TurnDrops(s: string, name: string)
    requires LoopEnds(s, name) && HasVar(s)
    ensures LoopEnds(Replaced(s, name), name) && Measure(Replaced(s, name), name) < Measure(s, name)
  {
    var u, v := TurnParts(s, name);
    PartsDrop(s, u, v, name);
  }

  // ---- loops that do not end ----

  /** A crowded command stays crowded, when the name begins with "ii" and ends with "%%". */
  lemma StaysCrowded(s: string, u: string, v: string, name: string)
    requires s == u + "%i" + v && (forall q: int :: q < |u| ==> !VarAt(s, q))
    requires Crowded(s) && StartsTwice(name) && EndsTwice(name)
    ensures Crowded(u + name + v)
  {
    var q :| 0 <= q < |s| && CrowdedAt(s, q);
    var r := u + name + v;
    var z := |u| + |name|;
    if q > |u| {
      assert q >= |u| + 2;
      assert CrowdedAt(r, q - 2 + |name|);
    } else if q > 0 && s[q - 1] == '%' {
      assert CrowdedAt(r, |u| - 1);
    } else if q + 2 < |s| && s[q + 2] == 'i' {
      assert CrowdedAt(r, z - 1);
    } else {
      assert VarAt(r, z);
      assert CrowdedAt(r, z);
    }
  }

  lemma CrowdedHasVar(s: string)
    requires Crowded(s)
    ensures HasVar(s)
  {
    NoVarAt(s);
  }

  lemma TurnStuck(s: string, name: string)
    requires !LoopEnds(s, name)
    ensures !LoopEnds(Replaced(s, name), name)
  {
    var u, v := TurnParts(s, name);
    if HasVar(name) {
      HasVarAppend(u, name);
      HasVarAppend(u + name, v);
    } else {
      StaysCrowded(s, u, v, name);
      CrowdedHasVar(u + name + v);
    }
  }

  /** Where the condition fails, a %i is left after every number of turns. */
  lemma {:induction false} NeverEnds(s: string, name: string, n: nat)
    requires !LoopEnds(s, name)
    ensures HasVar(After(s, name, n))
    decreases n
  {
    if n > 0 {
      TurnStuck(s, name);
      NeverEnds(Replaced(s, name), name, n - 1);
    }
  }

  /** How many turns the loop takes. */
  function Turns(s: string, name: string): nat
    requires LoopEnds(s, name)
    decreases Measure(s, name)
  {
    if HasVar(s) then
      TurnDrops(s, name);
      1 + Turns(Replaced(s, name), name)
    else 0
  }

  lemma {:induction false} TurnsSuffice(s: string, name: string)
    requires LoopEnds(s, name)
    ensures !HasVar(After(s, name, Turns(s, name)))
    decreases Measure(s, name)
  {
    if HasVar(s) {
      TurnDrops(s, name);
      TurnsSuffice(Replaced(s, name), name);
    }
  }

  /** Main result: for every command and every name the loop ends if and only if LoopEnds says so. */
  lemma EndsExactly(s: string, name: string)
    ensures Ends(s, name) <==> LoopEnds(s, name)
  {
    if LoopEnds(s, name) {
      TurnsSuffice(s, name);
    } else {
      forall n: nat ensures HasVar(After(s, name, n)) {
        NeverEnds(s, name, n);
      }
    }
  }

  /** The names with which the loop ends for every command. */
  lemma EndsForAllCommands(name: string)
    ensures (forall s :: Ends(s, name)) <==> !HasVar(name) && !(StartsTwice(name) && EndsTwice(name))
  {
    if !HasVar(name) && !(StartsTwice(name) && EndsTwice(name)) {
      forall s ensures Ends(s, name) {
        EndsExactly(s, name);
      }
    } else {
      var s := "%ii";
      assert AtVar(s) && CrowdedAt(s, 0);
      EndsExactly(s, name);
      assert !Ends(s, name);
    }
  }

  /** Two names that show it, with the command "%ii". */
  lemma EndlessNames(n: nat)
    ensures HasVar(After("%ii", "%i", n)) && HasVar(After("%ii", "ii%%", n))
  {
    var s := "%ii";
    assert AtVar(s) && CrowdedAt(s, 0) && AtVar("%i");
    NeverEnds(s, "%i", n);
    NeverEnds(s, "ii%%", n);
  }

  // ---- what the loop arrives at ----

  function Expanded(s: string, name: string): string
    requires LoopEnds(s, name)
    decreases Measure(s, name)
  {
    if HasVar(s) then
      TurnDrops(s, name);
      Expanded(Replaced(s, name), name)
    else s
  }

  lemma {:induction false} NothingLeft(s: string, name: string)
    requires LoopEnds(s, name)
    ensures !HasVar(Expanded(s, name))
    decreases Measure(s, name)
  {
    if HasVar(s) {
      TurnDrops(s, name);
      NothingLeft(Replaced(s, name), name);
    }
  }

  datatype Status = XENONE | XEMALLOC

  /** cmd_handler_do_int; a missing argument is a null pointer, and `out` says that there is a buffer.
      The name fits its 16 octets. Where the loop does not end there is no result to speak of. */
  method DoInt(command: Option<string>, out: bool, name: Option<string>)
        returns (status: Status, result: Option<string>)
    requires name.Some? ==> |name.value| < 16
    requires command.Some? && out && name.Some? ==> LoopEnds(command.value, name.value)
    ensures command.None? ==> status == XENONE && result == None
    ensures command.Some? && !out ==> status == XEMALLOC && result == None
    ensures command.Some? && out && name.None? ==> status == XEMALLOC && result == command
    ensures command.Some? && out && name.Some?
        ==> status == XENONE && result == Some(Expanded(command.value, name.value))
  {
    if command.None? {
      return XENONE, None;
    }
    if !out {
      return XEMALLOC, None;
    }
    var text := command.value;
    if name.None? {
      return XEMALLOC, Some(text);
    }
    while HasVar(text)
      invariant LoopEnds(text, name.value)
      invariant Expanded(text, name.value) == Expanded(command.value, name.value)
      decreases Measure(text, name.value)
    {
      TurnDrops(text, name.value);
      var p := FirstVar(text);
      text := text[..p] + name.value + text[p + 2..];
    }
    return XENONE, Some(text);
  }

  // ---- one pass from left to right ----

  function OnePass(s: string, name: string): string {
    if s == "" then ""
    else if AtVar(s) then name + OnePass(s[2..], name)
    else [s[0]] + OnePass(s[1..], name)
  }

  /** The first character that comes out of s. */
  function FirstOut(s: string, name: string): Option<char> {
    if s == "" then None
    else if AtVar(s) then (if name == "" then FirstOut(s[2..], name) else Some(name[0]))
    else Some(s[0])
  }

  lemma {:induction false} FirstOutIs(s: string, name: string)
    ensures FirstOut(s, name) == if OnePass(s, name) == "" then None else Some(OnePass(s, name)[0])
  {
    if AtVar(s) && name == "" {
      FirstOutIs(s[2..], name);
      assert name + OnePass(s[2..], name) == OnePass(s[2..], name);
    }
  }

  predicate EndsOnce(name: string) {
    name != "" && name[|name| - 1] == '%'
  }

  /** A '%' of the command, or one at the end of the name, comes to stand before an 'i'. */
  predicate Clashes(s: string, name: string) {
    s != "" &&
    if AtVar(s) then (EndsOnce(name) && FirstOut(s[2..], name) == Some('i')) || Clashes(s[2..], name)
    else (s[0] == '%' && FirstOut(s[1..], name) == Some('i')) || Clashes(s[1..], name)
  }

  lemma {:induction false} OnePassLeaves(s: string, name: string)
    requires !HasVar(name)
    ensures HasVar(OnePass(s, name)) <==> Clashes(s, name)
  {
    if s != "" {
      if AtVar(s) {
        OnePassLeaves(s[2..], name);
        HasVarAppend(name, OnePass(s[2..], name));
        FirstOutIs(s[2..], name);
      } else {
        OnePassLeaves(s[1..], name);
        HasVarAppend([s[0]], OnePass(s[1..], name));
        FirstOutIs(s[1..], name);
      }
    }
  }

  lemma {:induction false} OnePassAppend(u: string, v: string, name: string)
    requires !HasVar(u) && !(u != "" && v != "" && u[|u| - 1] == '%' && v[0] == 'i')
    ensures OnePass(u + v, name) == u + OnePass(v, name)
  {
    if u == "" {
      assert u + v == v;
    } else {
      assert (u + v)[1..] == u[1..] + v;
      OnePassAppend(u[1..], v, name);
    }
  }

  lemma PassAround(s: string, u: string, v: string, name: string)
    requires !HasVar(u) && AtVar(s) && s[2..] == v
    ensures OnePass(u + s, name) == u + name + OnePass(v, name)
  {
    OnePassAppend(u, s, name);
    assert u + (name + OnePass(v, name)) == u + name + OnePass(v, name);
  }

  /** Text that has been put out is not read again, unless a %i comes about at its end. */
  lemma PassResumed(w: string, v: string, name: string)
    requires !HasVar(w + OnePass(v, name))
    ensures OnePass(w + v, name) == w + OnePass(v, name)
  {
    HasVarAppend(w, OnePass(v, name));
    StartsAlike(v, name);
    OnePassAppend(w, v, name);
  }

  lemma SamePass(s: string, u: string, rest: string, v: string, name: string)
    requires s == u + rest && AtVar(rest) && rest[2..] == v && !HasVar(u) && !HasVar(OnePass(s, name))
    ensures OnePass(u + name + v, name) == OnePass(s, name)
  {
    PassAround(rest, u, v, name);
    PassResumed(u + name, v, name);
  }

  /** One turn of the loop does not disturb the single pass, unless that leaves a %i behind. */
  lemma ReplacedSamePass(s: string, name: string)
    requires HasVar(s) && !HasVar(OnePass(s, name))
    ensures OnePass(Replaced(s, name), name) == OnePass(s, name)
  {
    var u, v := TurnParts(s, name);
    Regroup(u, "%i", v);
    SamePass(s, u, "%i" + v, v, name);
  }

  lemma StartsAlike(v: string, name: string)
    ensures v != "" && v[0] == 'i' ==> OnePass(v, name) != "" && OnePass(v, name)[0] == 'i'
  {
  }

  /** The loop comes to the same as one pass from left to right exactly when no '%' comes to stand before an
      'i' on the way. */
  lemma {:induction false} LoopIsOnePass(s: string, name: string)
    requires LoopEnds(s, name)
    ensures Expanded(s, name) == OnePass(s, name) <==> !Clashes(s, name)
    decreases Measure(s, name)
  {
    NothingLeft(s, name);
    if HasVar(s) {
      OnePassLeaves(s, name);
      if !Clashes(s, name) {
        TurnDrops(s, name);
        ReplacedSamePass(s, name);
        OnePassLeaves(Replaced(s, name), name);
        LoopIsOnePass(Replaced(s, name), name);
      }
    } else {
      PassOfNothing(s, name);
    }
  }

  lemma {:induction false} PassOfNothing(s: string, name: string)
    requires !HasVar(s)
    ensures OnePass(s, name) == s && !Clashes(s, name)
  {
    if s != "" {
      PassOfNothing(s[1..], name);
      FirstOutIs(s[1..], name);
      assert [s[0]] + s[1..] == s;
    }
  }

  /** No command is a problem exactly for names that are not empty, do not begin with 'i' and do not end
      with '%'. */
  lemma {:induction false} PlainNames(name: string)
    ensures name != "" && name[0] != 'i' && !EndsOnce(name) ==> forall s: string :: !Clashes(s, name)
    ensures name == "" || name[0] == 'i' || EndsOnce(name) ==> exists s: string :: Clashes(s, name)
  {
    if name != "" && name[0] != 'i' && !EndsOnce(name) {
      forall s: string ensures !Clashes(s, name) {
        PlainNameFits(s, name);
      }
    } else {
      ClashingCommand("%%ii", name);
    }
  }

  lemma ClashingCommand(s: string, name: string)
    requires s == "%%ii" && (name == "" || name[0] == 'i' || EndsOnce(name))
    ensures Clashes(s, name)
  {
    var rest := s[1..];
    assert AtVar(rest) && rest[2..] == "i" && FirstOut(rest[2..], name) == Some('i');
    assert EndsOnce(name) ==> Clashes(rest, name);
    assert name == "" || name[0] == 'i' ==> FirstOut(rest, name) == Some('i');
  }

  lemma {:induction false} PlainNameFits(s: string, name: string)
    requires name != "" && name[0] != 'i' && !EndsOnce(name)
    ensures !Clashes(s, name)
  {
    if s != "" {
      if AtVar(s) {
        PlainNameFits(s[2..], name);
      } else {
        PlainNameFits(s[1..], name);
      }
    }
  }
}
