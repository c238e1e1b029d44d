/**
 * The optional value used wherever the TypeScript code returns `T | null`,
 * and the two scans the scraper writes as `.each` callbacks over a list:
 * keeping every result that is there, and stopping at the first one.
 */
module Wrappers {

  datatype Option<+T> = None | Some(value: T) {

    /** `x ?? d` */
    function GetOr(default: T): T {
      match this
      case Some(v) => v
      case None => default
    }
  }

  /** `xs.forEach(x => { const y = f(x); if (y) out.push(y); })`: the present results, in order. */
  function Collect<S, T>(f: S -> Option<T>, xs: seq<S>): (r: seq<T>)
    ensures |r| <= |xs|
    decreases |xs|
  {
    if xs == [] then []
    else
      var init := Collect(f, xs[..|xs| - 1]);
      match f(xs[|xs| - 1])
      case None => init
      case Some(y) => init + [y]
  }

  /** Collecting is element by element: it distributes over concatenation. */
  lemma {:induction false} CollectAppend<S, T>(f: S -> Option<T>, a: seq<S>, b: seq<S>)
    ensures Collect(f, a + b) == Collect(f, a) + Collect(f, b)
    decreases |b|
  {
    if b == [] {
      assert a + b == a;
    } else {
      assert (a + b)[..|a + b| - 1] == a + b[..|b| - 1];
      assert (a + b)[|a + b| - 1] == b[|b| - 1];
      CollectAppend(f, a, b[..|b| - 1]);
    }
  }

  /** Everything collected is the result of some element. */
  lemma {:induction false} CollectFrom<S, T>(f: S -> Option<T>, xs: seq<S>, y: T)
    requires y in Collect(f, xs)
    ensures exists k :: 0 <= k < |xs| && f(xs[k]) == Some(y)
    decreases |xs|
  {
    var init := xs[..|xs| - 1];
    if y in Collect(f, init) {
      CollectFrom(f, init, y);
      var k :| 0 <= k < |init| && f(init[k]) == Some(y);
      assert xs[k] == init[k];
    } else {
      assert f(xs[|xs| - 1]) == Some(y);
    }
  }

  /** Every present result is collected. */
  lemma {:induction false} CollectKeeps<S, T>(f: S -> Option<T>, xs: seq<S>, k: nat)
    requires k < |xs| && f(xs[k]).Some?
    ensures f(xs[k]).value in Collect(f, xs)
    decreases |xs|
  {
    if k < |xs| - 1 {
      assert xs[..|xs| - 1][k] == xs[k];
      CollectKeeps(f, xs[..|xs| - 1], k);
    }
  }

  /** Collecting keeps everything when every element is its own result. */
  lemma {:induction false} CollectAll<S>(f: S -> Option<S>, xs: seq<S>)
    requires forall k :: 0 <= k < |xs| ==> f(xs[k]) == Some(xs[k])
    ensures Collect(f, xs) == xs
    decreases |xs|
  {
    if xs != [] {
      CollectAll(f, xs[..|xs| - 1]);
      assert xs[..|xs| - 1] + [xs[|xs| - 1]] == xs;
    }
  }

  /** The result of the first element that has one. */
  function FirstSome<S, T>(f: S -> Option<T>, xs: seq<S>): (r: Option<T>)
    decreases |xs|
  {
    if xs == [] then None
    else if f(xs[0]).Some? then f(xs[0])
    else FirstSome(f, xs[1..])
  }

  /** No element has a result exactly when the scan finds none. */
  lemma {:induction false} FirstSomeNone<S, T>(f: S -> Option<T>, xs: seq<S>)
    ensures FirstSome(f, xs).None? <==> forall k :: 0 <= k < |xs| ==> f(xs[k]).None?
    decreases |xs|
  {
    if xs != [] {
      FirstSomeNone(f, xs[1..]);
      assert forall k :: 1 <= k < |xs| ==> xs[k] == xs[1..][k - 1];
    }
  }

  /** The scan's result is that of the first element that has one. */
  lemma {:induction false} FirstSomeIsFirst<S, T>(f: S -> Option<T>, xs: seq<S>, k: nat)
    requires k < |xs| && f(xs[k]).Some?
    requires forall j :: 0 <= j < k ==> f(xs[j]).None?
    ensures FirstSome(f, xs) == f(xs[k])
    decreases k
  {
    if k > 0 {
      assert forall j :: 0 <= j < k - 1 ==> xs[1..][j] == xs[j + 1];
      FirstSomeIsFirst(f, xs[1..], k - 1);
    }
  }

  /** Scanning one more element only matters while nothing has been found. */
  lemma {:induction false} FirstSomeSnoc<S, T>(f: S -> Option<T>, xs: seq<S>, x: S)
    ensures FirstSome(f, xs + [x]) == if FirstSome(f, xs).Some? then FirstSome(f, xs) else f(x)
    decreases |xs|
  {
    if xs == [] {
      assert [] + [x] == [x];
      assert [x][1..] == [];
    } else {
      assert (xs + [x])[0] == xs[0];
      assert (xs + [x])[1..] == xs[1..] + [x];
      FirstSomeSnoc(f, xs[1..], x);
    }
  }
}
