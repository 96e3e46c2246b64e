/** The parameters a request is served with, and what they mean for the pattern that was matched. */
module Params {
  import opened Shapes

  datatype Param = Param(key: string, value: string)

  /** The value of the first parameter with the name; empty when there is none. */
  function ValueOf(ps: seq<Param>, name: string): string {
    if ps == [] then "" else if ps[0].key == name then ps[0].value else ValueOf(ps[1..], name)
  }

  /** The pattern with every `:name` and `*name` replaced by the value stored under the name. */
  function Filled(pattern: string, ps: seq<Param>): string
    decreases |pattern|
  {
    if pattern == [] then []
    else if pattern[0] == PARAM then
      var n := SegmentLength(pattern[1..]);
      ValueOf(ps, pattern[1..1 + n]) + Filled(pattern[1 + n..], ps)
    else if pattern[0] == ANY then ValueOf(ps, pattern[1..])
    else [pattern[0]] + Filled(pattern[1..], ps)
  }

  ghost predicate AllDifferent(names: seq<string>) { forall i, j :: 0 <= i < j < |names| ==> names[i] != names[j] }

  /** Names and values, paired in order. */
  ghost predicate Pairs(ps: seq<Param>, names: seq<string>, values: seq<string>) {
    |ps| == |names| == |values| && forall k :: 0 <= k < |ps| ==> ps[k].key == names[k] && ps[k].value == values[k]
  }

  /** The first parameter with a key is the one that counts. */
  lemma {:induction false} FirstCounts(ps: seq<Param>, k: nat)
    requires k < |ps| && forall j :: 0 <= j < k ==> ps[j].key != ps[k].key
    ensures ValueOf(ps, ps[k].key) == ps[k].value
  {
    if k > 0 { FirstCounts(ps[1..], k - 1); }
  }

  lemma {:induction false} NoneCounts(ps: seq<Param>, name: string)
    requires forall k :: 0 <= k < |ps| ==> ps[k].key != name
    ensures ValueOf(ps, name) == ""
  {
    if ps != [] { NoneCounts(ps[1..], name); }
  }

  lemma {:induction false} FillSubstitutes(pattern: string, ps: seq<Param>, values: seq<string>)
    requires |values| == |Names(pattern)| && forall i :: 0 <= i < |values| ==> ValueOf(ps, Names(pattern)[i]) == values[i]
    ensures Filled(pattern, ps) == Substitute(pattern, values)
    decreases |pattern|
  {
    if pattern != [] {
      if pattern[0] == PARAM {
        var n := SegmentLength(pattern[1..]);
        var name, rest := pattern[1..1 + n], pattern[1 + n..];
        assert Names(pattern) == [name] + Names(rest);
        assert Names(pattern)[0] == name;
        forall i | 0 <= i < |values| - 1 ensures ValueOf(ps, Names(rest)[i]) == values[1..][i] {
          assert Names(pattern)[i + 1] == Names(rest)[i];
        }
        FillSubstitutes(rest, ps, values[1..]);
      } else if pattern[0] == ANY {
        assert Names(pattern)[0] == pattern[1..];
      } else {
        FillSubstitutes(pattern[1..], ps, values);
      }
    }
  }

  /** Filled with the values stored under its names, which must differ, the pattern reads as the request path. */
  lemma FilledIsPath(pattern: string, path: string, ps: seq<Param>)
    requires Matches(Shape(pattern), path) && AllDifferent(Names(pattern)) && Pairs(ps, Names(pattern), Captures(Shape(pattern), path))
    ensures Filled(pattern, ps) == path
  {
    var values := Captures(Shape(pattern), path);
    SubstituteCaptures(pattern, path);
    hide Shape, Names, Captures, Matches, Substitute, Filled, ValueOf;
    forall i | 0 <= i < |values| ensures ValueOf(ps, Names(pattern)[i]) == values[i] { FirstCounts(ps, i); }
    FillSubstitutes(pattern, ps, values);
  }
}
