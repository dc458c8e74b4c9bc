/** The Levenshtein distance of check-links.py: the table-filling method, the
    distance it computes, and why that is the least number of edits. */
module EditDistance {
  import opened Options

  // ---------- The recurrence ----------

  function Min(a: nat, b: nat): nat {
    if a <= b then a else b
  }

  function Front<T>(s: seq<T>): seq<T>
    requires s != []
  {
    s[..|s| - 1]
  }

  function Last<T>(s: seq<T>): T
    requires s != []
  {
    s[|s| - 1]
  }

  function SubstitutionCost(a: char, b: char): nat {
    if a == b then 0 else 1
  }

  /** The recurrence that fills a cell of the table from its three neighbours. */
  function Distance(s: string, t: string): nat
    decreases |s| + |t|
  {
    if s == [] then |t|
    else if t == [] then |s|
    else
      Min(Min(Distance(Front(s), t) + 1, Distance(s, Front(t)) + 1),
          Distance(Front(s), Front(t)) + SubstitutionCost(Last(s), Last(t)))
  }

  /** The Wagner-Fischer table: cell (i, j) holds the distance of the prefixes of
      lengths i and j. */
  method Levenshtein(string1: string, string2: string) returns (distance: nat)
    ensures distance == Distance(string1, string2)
  {
    hide Distance, Cell;
    var size1, size2 := |string1| + 1, |string2| + 1;
    var dist := new nat[size1, size2]((_, _) => 0);
    for i := 0 to size1
      invariant forall k :: 0 <= k < i ==> dist[k, 0] == k
    {
      dist[i, 0] := i;
    }
    for j := 0 to size2
      invariant forall k :: 0 < k < size1 ==> dist[k, 0] == k
      invariant forall l :: 0 <= l < j ==> dist[0, l] == l
    {
      dist[0, j] := j;
    }
    forall k, l | 0 <= k < size1 && 0 <= l < size2 && (k == 0 || l == 0)
      ensures dist[k, l] == Cell(string1, string2, k, l)
    {
      BorderCell(string1, string2, k, l);
    }
    for i := 1 to size1
      invariant forall k :: 0 <= k < size1 ==> dist[k, 0] == Cell(string1, string2, k, 0)
      invariant forall k, l :: 0 <= k < i && 0 <= l < size2 ==> dist[k, l] == Cell(string1, string2, k, l)
    {
      for j := 1 to size2
        invariant forall k :: 0 <= k < size1 ==> dist[k, 0] == Cell(string1, string2, k, 0)
        invariant forall k, l :: 0 <= k < i && 0 <= l < size2 ==> dist[k, l] == Cell(string1, string2, k, l)
        invariant forall l :: 0 <= l < j ==> dist[i, l] == Cell(string1, string2, i, l)
      {
        var substitutionCost := 1;
        if string1[i - 1] == string2[j - 1] {
          substitutionCost := 0;
        }
        InnerCell(string1, string2, i, j);
        dist[i, j] := Min(Min(dist[i - 1, j] + 1, dist[i, j - 1] + 1), dist[i - 1, j - 1] + substitutionCost);
      }
    }
    LastCell(string1, string2);
    return dist[size1 - 1, size2 - 1];
  }

  /** What cell (i, j) of the table holds. */
  function Cell(s: string, t: string, i: nat, j: nat): nat
    requires i <= |s| && j <= |t|
  {
    Distance(s[..i], t[..j])
  }

  lemma BorderCell(s: string, t: string, i: nat, j: nat)
    requires i <= |s| && j <= |t|
    ensures i == 0 ==> Cell(s, t, i, j) == j
    ensures j == 0 ==> Cell(s, t, i, j) == i
  {
  }

  lemma InnerCell(s: string, t: string, i: nat, j: nat)
    requires 1 <= i <= |s| && 1 <= j <= |t|
    ensures Cell(s, t, i, j)
      == Min(Min(Cell(s, t, i - 1, j) + 1, Cell(s, t, i, j - 1) + 1),
             Cell(s, t, i - 1, j - 1) + SubstitutionCost(s[i - 1], t[j - 1]))
  {
    hide Distance;
    DistanceStep(s[..i], t[..j]);
    assert Front(s[..i]) == s[..i - 1] && Front(t[..j]) == t[..j - 1];
  }

  lemma LastCell(s: string, t: string)
    ensures Cell(s, t, |s|, |t|) == Distance(s, t)
  {
    assert s[..|s|] == s && t[..|t|] == t;
  }

  lemma {:induction false} DistanceStep(s: string, t: string)
    ensures Distance(s, t) ==
      if s == [] then |t|
      else if t == [] then |s|
      else
        Min(Min(Distance(Front(s), t) + 1, Distance(s, Front(t)) + 1),
            Distance(Front(s), Front(t)) + SubstitutionCost(Last(s), Last(t)))
  {
    hide Min, Last, SubstitutionCost;
  }

  // ---------- The distance is a metric ----------

  lemma {:induction false} DistanceSymmetric(s: string, t: string)
    ensures Distance(s, t) == Distance(t, s)
    decreases |s| + |t|
  {
    if s != [] && t != [] {
      DistanceSymmetric(Front(s), t);
      DistanceSymmetric(s, Front(t));
      DistanceSymmetric(Front(s), Front(t));
    }
  }

  lemma {:induction false} DistanceZero(s: string, t: string)
    ensures Distance(s, t) == 0 <==> s == t
    decreases |s| + |t|
  {
    if s != [] && t != [] {
      DistanceZero(Front(s), Front(t));
      if s == t {
        assert Front(s) == Front(t);
      } else if Last(s) == Last(t) {
        assert Front(s) != Front(t) by {
          assert s == Front(s) + [Last(s)] && t == Front(t) + [Last(t)];
        }
      }
    }
  }

  /** The distance is at most the longer length, and at least the difference. */
  lemma {:induction false} DistanceBounds(s: string, t: string)
    ensures Distance(s, t) <= (if |s| <= |t| then |t| else |s|)
    ensures |s| <= |t| + Distance(s, t) && |t| <= |s| + Distance(s, t)
    decreases |s| + |t|
  {
    if s != [] && t != [] {
      DistanceBounds(Front(s), t);
      DistanceBounds(s, Front(t));
      DistanceBounds(Front(s), Front(t));
    }
  }

  lemma {:induction false} DistanceTriangle(s: string, t: string, u: string)
    ensures Distance(s, u) <= Distance(s, t) + Distance(t, u)
    decreases |s| + |t| + |u|
  {
    if s == [] || t == [] || u == [] {
      DistanceBounds(s, t);
      DistanceBounds(t, u);
      DistanceBounds(s, u);
    } else {
      var s', t', u' := Front(s), Front(t), Front(u);
      if Distance(s, t) == Distance(s', t) + 1 {
        DistanceTriangle(s', t, u);
      } else if Distance(t, u) == Distance(t, u') + 1 {
        DistanceTriangle(s, t, u');
      } else if Distance(s, t) == Distance(s, t') + 1 {
        if Distance(t, u) == Distance(t', u) + 1 {
          DistanceTriangle(s, t', u);
        } else {
          DistanceTriangle(s, t', u');
        }
      } else if Distance(t, u) == Distance(t', u) + 1 {
        DistanceTriangle(s', t', u);
      } else {
        DistanceTriangle(s', t', u');
      }
    }
  }

  // ---------- Edit scripts ----------

  /** One edit of a string, anywhere in it. */
  datatype Edit = Insert(at: nat, c: char) | Delete(at: nat) | Substitute(at: nat, c: char)

  function Edited(e: Edit, s: string): Option<string> {
    match e
    case Insert(at, c) => if at <= |s| then Some(s[..at] + [c] + s[at..]) else None
    case Delete(at) => if at < |s| then Some(s[..at] + s[at + 1..]) else None
    case Substitute(at, c) => if at < |s| then Some(s[at := c]) else None
  }

  /** A script of edits, applied one after another; an edit outside the string fails. */
  function Apply(script: seq<Edit>, s: string): Option<string> {
    if script == [] then Some(s)
    else
      var s' :- Edited(script[0], s);
      Apply(script[1..], s')
  }

  /** A common prefix or suffix contributes nothing to the distance. */
  lemma {:induction false} DistanceCommonSuffix(s: string, t: string, suffix: string)
    ensures Distance(s + suffix, t + suffix) <= Distance(s, t)
    decreases |suffix|
  {
    if suffix == [] {
      assert s + suffix == s && t + suffix == t;
    } else {
      hide Distance;
      DistanceCommonSuffix(s, t, Front(suffix));
      assert Front(s + suffix) == s + Front(suffix) && Front(t + suffix) == t + Front(suffix);
      DistanceOfFronts(s + suffix, t + suffix);
    }
  }

  lemma DistanceOfFronts(s: string, t: string)
    requires s != [] && t != [] && Last(s) == Last(t)
    ensures Distance(s, t) <= Distance(Front(s), Front(t))
  {
  }

  /** One edit moves a string by a distance of at most 1. */
  lemma EditIsOneStep(e: Edit, s: string)
    requires Edited(e, s).Some?
    ensures Distance(s, Edited(e, s).value) <= 1
  {
    match e
    case Insert(at, c) =>
      var p, q := s[..at], s[at..];
      assert s == p + q;
      assert Front(p + [c]) == p;
      DistanceZero(p, p);
      if p != [] {
        assert Distance(p, p + [c]) <= Distance(p, Front(p + [c])) + 1;
      }
      DistanceCommonSuffix(p, p + [c], q);
    case Delete(at) =>
      var p, q, c := s[..at], s[at + 1..], s[at];
      assert s == p + [c] + q;
      assert Front(p + [c]) == p;
      DistanceZero(p, p);
      if p != [] {
        assert Distance(p + [c], p) <= Distance(Front(p + [c]), p) + 1;
      }
      DistanceCommonSuffix(p + [c], p, q);
    case Substitute(at, c) =>
      var p, q, b := s[..at], s[at + 1..], s[at];
      assert s == p + [b] + q && s[at := c] == p + [c] + q;
      assert Front(p + [b]) == p && Front(p + [c]) == p;
      DistanceZero(p, p);
      DistanceCommonSuffix(p + [b], p + [c], q);
  }

  /** No script is shorter than the distance. */
  lemma {:induction false} ScriptsAreLong(script: seq<Edit>, s: string, t: string)
    requires Apply(script, s) == Some(t)
    ensures |script| >= Distance(s, t)
    decreases |script|
  {
    if script == [] {
      DistanceZero(s, t);
    } else {
      var s' := Edited(script[0], s).value;
      EditIsOneStep(script[0], s);
      ScriptsAreLong(script[1..], s', t);
      DistanceTriangle(s, s', t);
    }
  }

  /** A script works the same on a string that goes on. */
  lemma {:induction false} ApplyBeforeSuffix(script: seq<Edit>, s: string, t: string, suffix: string)
    requires Apply(script, s) == Some(t)
    ensures Apply(script, s + suffix) == Some(t + suffix)
    decreases |script|
  {
    if script != [] {
      var s' := Edited(script[0], s).value;
      assert Edited(script[0], s + suffix).value == s' + suffix;
      ApplyBeforeSuffix(script[1..], s', t, suffix);
    }
  }

  lemma {:induction false} ApplyThenEdit(script: seq<Edit>, s: string, t: string, e: Edit)
    requires Apply(script, s) == Some(t)
    ensures Apply(script + [e], s) == Edited(e, t)
    decreases |script|
  {
    if script != [] {
      assert (script + [e])[1..] == script[1..] + [e];
      ApplyThenEdit(script[1..], Edited(script[0], s).value, t, e);
    } else {
      assert script + [e] == [e];
    }
  }

  /** A script as long as the distance, read off the recurrence. */
  function BestScript(s: string, t: string): seq<Edit>
    decreases |s| + |t|
  {
    if s == [] && t == [] then []
    else if s == [] then BestScript(s, Front(t)) + [Insert(|t| - 1, Last(t))]
    else if t == [] then [Delete(|s| - 1)] + BestScript(Front(s), t)
    else if Distance(s, t) == Distance(Front(s), t) + 1 then [Delete(|s| - 1)] + BestScript(Front(s), t)
    else if Distance(s, t) == Distance(s, Front(t)) + 1 then BestScript(s, Front(t)) + [Insert(|t| - 1, Last(t))]
    else if Last(s) == Last(t) then BestScript(Front(s), Front(t))
    else [Substitute(|s| - 1, Last(t))] + BestScript(Front(s), Front(t))
  }

  lemma {:induction false} BestScriptWorks(s: string, t: string)
    ensures Apply(BestScript(s, t), s) == Some(t)
    ensures |BestScript(s, t)| == Distance(s, t)
    decreases |s| + |t|
  {
    hide Distance, Apply, Edited;
    DistanceStep(s, t);
    if s == [] && t == [] {
      ApplyNothing(s);
    } else if s == [] || (t != [] && Distance(s, t) != Distance(Front(s), t) + 1
        && Distance(s, t) == Distance(s, Front(t)) + 1) {
      DistanceStep(s, Front(t));
      BestScriptWorks(s, Front(t));
      InsertLast(BestScript(s, Front(t)), s, t);
    } else if t == [] || Distance(s, t) == Distance(Front(s), t) + 1 {
      DistanceStep(Front(s), t);
      BestScriptWorks(Front(s), t);
      DeleteLast(BestScript(Front(s), t), s, t);
    } else {
      BestScriptWorks(Front(s), Front(t));
      SubstituteLast(BestScript(Front(s), Front(t)), s, t);
    }
  }

  lemma ApplyNothing(s: string)
    ensures Apply([], s) == Some(s)
  {
  }

  lemma InsertLast(script: seq<Edit>, s: string, t: string)
    requires t != [] && Apply(script, s) == Some(Front(t))
    ensures Apply(script + [Insert(|t| - 1, Last(t))], s) == Some(t)
  {
    ApplyThenEdit(script, s, Front(t), Insert(|t| - 1, Last(t)));
    assert Front(t)[..|t| - 1] + [Last(t)] + Front(t)[|t| - 1..] == t;
  }

  lemma DeleteLast(script: seq<Edit>, s: string, t: string)
    requires s != [] && Apply(script, Front(s)) == Some(t)
    ensures Apply([Delete(|s| - 1)] + script, s) == Some(t)
  {
    assert Edited(Delete(|s| - 1), s).value == Front(s);
    assert ([Delete(|s| - 1)] + script)[1..] == script;
  }

  lemma SubstituteLast(script: seq<Edit>, s: string, t: string)
    requires s != [] && t != [] && Apply(script, Front(s)) == Some(Front(t))
    ensures Last(s) == Last(t) ==> Apply(script, s) == Some(t)
    ensures Apply([Substitute(|s| - 1, Last(t))] + script, s) == Some(t)
  {
    assert s == Front(s) + [Last(s)] && t == Front(t) + [Last(t)];
    ApplyBeforeSuffix(script, Front(s), Front(t), [Last(t)]);
    assert Edited(Substitute(|s| - 1, Last(t)), s).value == Front(s) + [Last(t)];
    assert ([Substitute(|s| - 1, Last(t))] + script)[1..] == script;
  }

  /** The distance is the least number of edits that turn one string into the other. */
  lemma DistanceIsOptimal(s: string, t: string)
    ensures exists script :: Apply(script, s) == Some(t) && |script| == Distance(s, t)
    ensures forall script :: Apply(script, s) == Some(t) ==> |script| >= Distance(s, t)
  {
    BestScriptWorks(s, t);
    forall script | Apply(script, s) == Some(t)
      ensures |script| >= Distance(s, t)
    {
      ScriptsAreLong(script, s, t);
    }
  }
}
