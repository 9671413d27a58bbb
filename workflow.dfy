/** The one computation of the command-line workflow: keeping the first `count` records. */
module Workflow {

  /**
   * `s[:count]` with Python slice semantics: a count past the end keeps everything,
   * and a negative count drops that many elements from the end.
   */
  function Take<T>(s: seq<T>, count: int): (r: seq<T>)
    ensures |r| <= |s| && r == s[..|r|]
    ensures 0 <= count ==> |r| == if count < |s| then count else |s|
    ensures count < 0 ==> |r| == if -count < |s| then |s| + count else 0
  {
    var stop := if count < 0 then |s| + count else count;
    if stop <= 0 then [] else if stop < |s| then s[..stop] else s
  }

  /** The cases of the slice: zero keeps nothing, at least the length keeps everything, a negative count keeps all but the last `-count`. */
  lemma TakeCases<T>(s: seq<T>, count: int)
    ensures count == 0 ==> Take(s, count) == []
    ensures count >= |s| ==> Take(s, count) == s
    ensures count < 0 && -count < |s| ==> Take(s, count) != [] && Take(s, count) + s[|s| + count..] == s
    ensures count <= -|s| ==> Take(s, count) == []
  {
  }
}
