/**
 Dependency maps as a manifest declares them: an object from names to declared ranges, or an array
 of bare names. Object key order is kept as a sequence of entries.
 */
module Deps {

  /** One `name: range` pair of a dependency object. */
  datatype Entry = Entry(name: string, range: string)

  /** The shapes a manifest section can take. `NotObject` stands for `null`, `undefined`, numbers
      and booleans. */
  datatype DepsValue =
    | DepArray(names: seq<string>)
    | DepString(s: string)
    | DepObject(entries: seq<Entry>)
    | NotObject

  predicate HasName(entries: seq<Entry>, n: string) {
    exists i | 0 <= i < |entries| :: entries[i].name == n
  }

  predicate UniqueNames(entries: seq<Entry>) {
    forall i, j | 0 <= i < j < |entries| :: entries[i].name != entries[j].name
  }

  /** No later entry has the same name: the entry an object built from these pairs keeps. */
  predicate IsLastOccurrence(entries: seq<Entry>, i: int) {
    && 0 <= i < |entries|
    && forall j | i < j < |entries| :: entries[j].name != entries[i].name
  }

  /** `a` occurs in `names` before the first occurrence of `b`. */
  predicate Before(names: seq<string>, a: string, b: string) {
    exists p | 0 <= p < |names| :: names[p] == a && b !in names[..p + 1]
  }

  /** Appending a name keeps every earlier "comes before". */
  lemma BeforeExtend(names: seq<string>, x: string, a: string, b: string)
    requires Before(names, a, b)
    ensures Before(names + [x], a, b)
  {
    var p :| 0 <= p < |names| && names[p] == a && b !in names[..p + 1];
    assert (names + [x])[..p + 1] == names[..p + 1];
  }

  /** A name of the list comes before a name the list does not hold, once that name is appended. */
  lemma BeforeNew(names: seq<string>, x: string, a: string)
    requires a in names && x !in names
    ensures Before(names + [x], a, x)
  {
    var p :| 0 <= p < |names| && names[p] == a;
    assert (names + [x])[..p + 1] == names[..p + 1];
  }

  /** An object `{name: '*'}` for every name of an array, each name once, in first-occurrence order. */
  function ArrayEntries(names: seq<string>): (r: seq<Entry>)
    ensures UniqueNames(r)
    ensures forall i | 0 <= i < |r| :: r[i].range == "*"
    ensures forall n :: n in names <==> HasName(r, n)
    ensures forall i, j | 0 <= i < j < |r| :: Before(names, r[i].name, r[j].name)
  {
    if |names| == 0 then []
    else
      var front := ArrayEntries(names[..|names| - 1]);
      var x := names[|names| - 1];
      assert names == names[..|names| - 1] + [x];
      if HasName(front, x) then
        assert forall i, j | 0 <= i < j < |front| :: Before(names, front[i].name, front[j].name) by {
          forall i, j | 0 <= i < j < |front| ensures Before(names, front[i].name, front[j].name) {
            BeforeExtend(names[..|names| - 1], x, front[i].name, front[j].name);
          }
        }
        front
      else
        var r := front + [Entry(x, "*")];
        assert forall n :: HasName(r, n) <==> HasName(front, n) || n == x by {
          forall n ensures HasName(r, n) ==> HasName(front, n) || n == x {
            if HasName(r, n) {
              var i :| 0 <= i < |r| && r[i].name == n;
              if i < |front| {
                assert front[i] == r[i];
              }
            }
          }
          forall n ensures HasName(front, n) ==> HasName(r, n) {
            if HasName(front, n) {
              var i :| 0 <= i < |front| && front[i].name == n;
              assert r[i] == front[i];
            }
          }
          assert r[|front|].name == x;
        }
        assert forall i, j | 0 <= i < j < |r| :: Before(names, r[i].name, r[j].name) by {
          var prefix := names[..|names| - 1];
          forall i, j | 0 <= i < j < |r| ensures Before(names, r[i].name, r[j].name) {
            assert r[i] == front[i];
            if j < |front| {
              BeforeExtend(prefix, x, front[i].name, front[j].name);
            } else {
              assert HasName(front, front[i].name);
              BeforeNew(prefix, x, front[i].name);
            }
          }
        }
        r
  }
}
