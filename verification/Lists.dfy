/** Cutting and joining sequences of any element type. */
module Lists {
  lemma SplitAt<T>(s: seq<T>, i: nat)
    requires i < |s|
    ensures s == s[..i] + s[i..] && s[i..] == [s[i]] + s[i + 1..] && s[..i + 1] == s[..i] + [s[i]]
    ensures s[i..][0] == s[i] && s[i..][1..] == s[i + 1..]
  {}

  lemma Associative<T>(a: seq<T>, b: seq<T>, c: seq<T>)
    ensures a + b + c == a + (b + c)
  {}

  lemma UpdateAt<T>(s: seq<T>, i: nat, x: T)
    requires i < |s|
    ensures s[i := x][..i + 1] == s[..i] + [x] && s[i := x][i + 1..] == s[i + 1..]
  {}

  lemma JoinTail<T>(a: seq<T>, b: seq<T>)
    requires a != []
    ensures (a + b)[0] == a[0] && (a + b)[1..] == a[1..] + b
  {}

  lemma Empty<T>(a: seq<T>)
    ensures a + [] == a && [] + a == a
  {}

  lemma CutAt<T>(a: seq<T>, x: T, b: seq<T>)
    ensures (a + [x] + b)[..|a|] == a && (a + [x] + b)[|a|] == x && (a + [x] + b)[|a| + 1..] == b
  {}

  lemma Cut<T>(a: seq<T>, b: seq<T>)
    ensures (a + b)[..|a|] == a && (a + b)[|a|..] == b
  {}

  /** Cutting what was appended to, inside the first part. */
  lemma CutBoth<T>(a: seq<T>, b: seq<T>, k: nat)
    requires k <= |a|
    ensures (a + b)[..k] == a[..k] && (a + b)[k..] == a[k..] + b
  {}

  /** A slice of what is left after dropping. */
  lemma DropSlice<T>(d: seq<T>, at: nat, from: nat, to: nat)
    requires from <= to && at + to <= |d|
    ensures d[at..][from..to] == d[at + from..at + to] && d[at..][to..] == d[at + to..]
  {}

  /** One element moved from the front of one sequence to the back of another, then `b` more. */
  lemma ShiftOne<T>(a: seq<T>, s: seq<T>, b: nat)
    requires 1 + b <= |s|
    ensures a + s[..1 + b] == a + [s[0]] + s[1..][..b] && s[1 + b..] == s[1..][b..]
  {}

  lemma HeadTail<T>(s: seq<T>)
    requires s != []
    ensures [s[0]] + s[1..] == s
  {}

  /** Removing one element of the tail. */
  lemma TailWithout<T>(s: seq<T>, k: nat)
    requires 1 + k < |s|
    ensures s[1..][k] == s[1 + k]
    ensures [s[0]] + (s[1..][..k] + s[1..][k + 1..]) == s[..1 + k] + s[1 + k + 1..]
  {}

  lemma Halves<T>(s: seq<T>, k: nat)
    requires k <= |s|
    ensures s == s[..k] + s[k..]
  {}

  lemma HalvesContents<T>(s: seq<T>, k: nat)
    requires k <= |s|
    ensures forall x :: x in s <==> x in s[..k] || x in s[k..]
    ensures forall x :: x in s[..k] ==> exists i :: 0 <= i < k && s[i] == x
    ensures forall x :: x in s[k..] ==> exists i :: k <= i < |s| && s[i] == x
  {
    Halves(s, k);
  }

  /** Dropping a stretch of exactly the elements that are `gone`. */
  lemma DropExactly<T>(s: seq<T>, k: nat, gone: T -> bool)
    requires k <= |s| && forall i :: 0 <= i < |s| ==> (i < k <==> gone(s[i]))
    ensures forall x :: x in s[k..] <==> x in s && !gone(x)
  {
    forall x | x in s && !gone(x) ensures x in s[k..] {
      var i :| 0 <= i < |s| && s[i] == x;
      assert s[k..][i - k] == x;
    }
  }

  lemma SpliceContents<T>(s: seq<T>, x: T, k: nat)
    requires k <= |s|
    ensures forall y :: y in s[..k] + [x] + s[k..] <==> y in s || y == x
  {
    assert s == s[..k] + s[k..];
  }

  lemma PrefixNext<T>(a: seq<T>, b: seq<T>)
    requires a <= b && |a| < |b|
    ensures a + [b[|a|]] <= b
  {}

  /** Overwriting a stretch of a sequence, seen from its start. */
  lemma Overwrite<T>(d: seq<T>, at: nat, x: seq<T>, end: nat)
    requires at + |x| <= end <= |d|
    ensures var r := d[..at] + x + d[at + |x|..]; |r| == |d| && r[at..end] == x + d[at + |x|..end] && r[..at] == d[..at]
  {
    var r := d[..at] + x + d[at + |x|..];
    assert forall i :: at + |x| <= i < |d| ==> r[i] == d[i];
  }

  /** One element copied to a lower place. */
  lemma MoveOne<T>(d: seq<T>, to: nat, from: nat, i: nat)
    requires to < from && from + i < |d|
    ensures var r := d[to + i := d[from + i]];
      && r[to..to + i + 1] == d[to..to + i] + [d[from + i]] && r[from + i + 1..] == d[from + i + 1..]
  {}

  /** A slice joined with what follows it. */
  lemma SliceNext<T>(d: seq<T>, from: nat, i: nat)
    requires from + i < |d|
    ensures d[from..from + i + 1] == d[from..from + i] + [d[from + i]]
    ensures d[from + i..] == [d[from + i]] + d[from + i + 1..]
  {}

  lemma Slices<T>(d: seq<T>, a: nat, b: nat, c: nat)
    requires a <= b <= c <= |d|
    ensures d[a..c] == d[a..b] + d[b..c]
  {}

  function Concat<T>(s: seq<seq<T>>): seq<T> {
    if s == [] then [] else s[0] + Concat(s[1..])
  }

  lemma {:induction false} ConcatAppend<T>(a: seq<seq<T>>, b: seq<seq<T>>)
    ensures Concat(a + b) == Concat(a) + Concat(b)
  {
    if a == [] {
      Empty(b);
      Empty(Concat(b));
    } else {
      JoinTail(a, b);
      ConcatAppend(a[1..], b);
      Associative(a[0], Concat(a[1..]), Concat(b));
    }
  }

  lemma ConcatOne<T>(a: seq<T>)
    ensures Concat([a]) == a && Concat<T>([]) == []
  {
    Empty(a);
  }
}
