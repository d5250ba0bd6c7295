/** The absent-or-present value used wherever the source works with `null`. */
module Optional {

  datatype Option<+T> = None | Some(value: T)

  /** The present values of `s`, in order: `array.filter(Boolean)` after a map. */
  function Somes<T(!new)>(s: seq<Option<T>>): (r: seq<T>)
    ensures |r| <= |s|
    ensures forall x :: x in r <==> Some(x) in s
  {
    if s == [] then []
    else
      var rest := Somes(s[..|s| - 1]);
      assert s == s[..|s| - 1] + [s[|s| - 1]];
      if s[|s| - 1].Some? then rest + [s[|s| - 1].value] else rest
  }

  /** Dropping absent values distributes over concatenation, so order is kept. */
  lemma {:induction false} SomesAppend<T(!new)>(a: seq<Option<T>>, b: seq<Option<T>>)
    ensures Somes(a + b) == Somes(a) + Somes(b)
    decreases |b|
  {
    if b == [] {
      assert a + b == a;
    } else {
      var b' := b[..|b| - 1];
      assert (a + b)[..|a + b| - 1] == a + b';
      SomesAppend(a, b');
    }
  }

  /** When every entry is present, nothing is dropped. */
  lemma {:induction false} SomesAllPresent<T(!new)>(s: seq<Option<T>>)
    requires forall k :: 0 <= k < |s| ==> s[k].Some?
    ensures |Somes(s)| == |s|
    ensures forall k :: 0 <= k < |s| ==> Somes(s)[k] == s[k].value
  {
    if s != [] {
      SomesAllPresent(s[..|s| - 1]);
    }
  }
}
