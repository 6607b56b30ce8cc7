/** The Python `str` operations the service relies on, on `seq<char>`
    (one `char` per Unicode scalar value; the lone surrogates a Python `str`
    can also hold are not modelled). Searches are
    stated on indices into the whole string, as CPython performs them. */
module PyStr {

  /** `c.isspace()`: the characters `str.strip()` removes when called with no
      argument. */
  predicate IsSpace(c: char) {
    c == ' ' || c == '\t' || c == '\n' || c == '\r' || c == '\U{0B}' || c == '\U{0C}'
    || ('\U{1C}' <= c <= '\U{1F}') || c == '\U{85}' || c == '\U{A0}' || c == '\U{1680}'
    || ('\U{2000}' <= c <= '\U{200A}') || c == '\U{2028}' || c == '\U{2029}'
    || c == '\U{202F}' || c == '\U{205F}' || c == '\U{3000}'
  }

  /** The first index at or after `i` that does not hold whitespace. */
  function SkipSpace(s: string, i: nat): (a: nat)
    requires i <= |s|
    ensures i <= a <= |s|
    ensures forall k :: i <= k < a ==> IsSpace(s[k])
    ensures a < |s| ==> !IsSpace(s[a])
    decreases |s| - i
  {
    if i < |s| && IsSpace(s[i]) then SkipSpace(s, i + 1) else i
  }

  /** The end of `s[lo..j]` once its trailing whitespace is dropped. */
  function SkipSpaceBack(s: string, lo: nat, j: nat): (b: nat)
    requires lo <= j <= |s|
    ensures lo <= b <= j
    ensures forall k :: b <= k < j ==> IsSpace(s[k])
    ensures lo < b ==> !IsSpace(s[b - 1])
    decreases j
  {
    if lo < j && IsSpace(s[j - 1]) then SkipSpaceBack(s, lo, j - 1) else j
  }

  /** Where `s.strip()` starts: past all leading whitespace. */
  function StripStart(s: string): nat {
    SkipSpace(s, 0)
  }

  /** `r` is the slice of `s` starting at `a`, and only whitespace of `s` lies
      outside it. */
  ghost predicate TrimmedSliceAt(r: string, s: string, a: int) {
    0 <= a && a + |r| <= |s| && r == s[a..a + |r|]
    && (forall k :: 0 <= k < a ==> IsSpace(s[k]))
    && (forall k :: a + |r| <= k < |s| ==> IsSpace(s[k]))
  }

  /** `s.strip()`: the leading whitespace removed, then the trailing. */
  function Strip(s: string): (r: string)
    ensures TrimmedSliceAt(r, s, StripStart(s))
    ensures r != [] ==> !IsSpace(r[0]) && !IsSpace(r[|r| - 1])
  {
    var a := StripStart(s);
    s[a..SkipSpaceBack(s, a, |s|)]
  }

  /** A string that starts and ends with a non-space character is its own
      `strip()`. */
  lemma {:induction false} StripKeepsTrimmed(s: string)
    requires s != [] && !IsSpace(s[0]) && !IsSpace(s[|s| - 1])
    ensures Strip(s) == s
  {
    assert StripStart(s) == 0;
    assert SkipSpaceBack(s, 0, |s|) == |s|;
    assert s[0..|s|] == s;
  }

  /** Trimming twice is trimming once. */
  lemma {:induction false} StripIdempotent(s: string)
    ensures Strip(Strip(s)) == Strip(s)
  {
    var r := Strip(s);
    if r != [] {
      StripKeepsTrimmed(r);
    } else {
      assert StripStart(r) == 0;
    }
  }

  /** `t` occurs in `s` starting at index `j`. */
  predicate OccursAt(s: string, t: string, j: int) {
    0 <= j && j + |t| <= |s| && s[j..j + |t|] == t
  }

  /** `t` does not occur in `s` at all. */
  ghost predicate FreeOf(s: string, t: string) {
    forall j :: !OccursAt(s, t, j)
  }

  /** `s.find(t, k)`: the first index from `k` on at which `t` occurs, or -1. */
  function FindFrom(s: string, t: string, k: nat): (i: int)
    ensures i == -1 || (k <= i && OccursAt(s, t, i))
    ensures forall j :: k <= j && (i == -1 || j < i) ==> !OccursAt(s, t, j)
    decreases |s| - k
  {
    if |s| < k + |t| then -1
    else if OccursAt(s, t, k) then k
    else FindFrom(s, t, k + 1)
  }

  /** `s.find(t)`: the first index at which `t` occurs, or -1. */
  function Find(s: string, t: string): (i: int)
    ensures -1 <= i
    ensures i >= 0 ==> OccursAt(s, t, i) && forall j :: 0 <= j < i ==> !OccursAt(s, t, j)
    ensures i == -1 ==> FreeOf(s, t)
  {
    FindFrom(s, t, 0)
  }

  /** The last index below `n` at which `t` occurs, or -1. */
  function RFindBelow(s: string, t: string, n: nat): (i: int)
    ensures -1 <= i < n
    ensures i >= 0 ==> OccursAt(s, t, i)
    ensures forall j :: i < j < n ==> !OccursAt(s, t, j)
    decreases n
  {
    if n == 0 then -1
    else if OccursAt(s, t, n - 1) then n - 1
    else RFindBelow(s, t, n - 1)
  }

  /** `s.rfind(t)`: the last index at which `t` occurs, or -1. */
  function RFind(s: string, t: string): (i: int)
    ensures -1 <= i
    ensures i >= 0 ==> OccursAt(s, t, i) && forall j :: i < j ==> !OccursAt(s, t, j)
    ensures i == -1 ==> FreeOf(s, t)
  {
    RFindBelow(s, t, |s| + 1)
  }

  /** A single character occurs at `j` exactly when `s[j]` is that character. */
  lemma {:induction false} OccursAtChar(s: string, c: char, j: int)
    ensures OccursAt(s, [c], j) <==> 0 <= j < |s| && s[j] == c
  {
    if 0 <= j < |s| { assert s[j..j + 1] == [s[j]]; }
  }

  /** Occurrences in a slice are the occurrences of the whole string that fit
      inside it, shifted. */
  lemma {:induction false} OccursInSlice(s: string, t: string, a: int, b: int, j: int)
    requires 0 <= a <= b <= |s|
    ensures OccursAt(s[a..b], t, j) <==> 0 <= j && a + j + |t| <= b && OccursAt(s, t, a + j)
  {
    if 0 <= j && a + j + |t| <= b {
      var u, v := s[a..b][j..j + |t|], s[a + j..a + j + |t|];
      forall m | 0 <= m < |t| ensures u[m] == v[m] {
        assert s[a..b][j + m] == s[a + j + m];
      }
      assert u == v;
    }
  }

  /** `sep.join(xs)` */
  function Join(sep: string, xs: seq<string>): (r: string)
    decreases |xs|
  {
    if xs == [] then ""
    else if |xs| == 1 then xs[0]
    else xs[0] + sep + Join(sep, xs[1..])
  }

  /** The occurrences of `t` found scanning from `k`, each search resuming
      after the previous occurrence (so they never overlap). */
  function CountFrom(s: string, t: string, k: nat): nat
    requires t != [] && k <= |s|
    decreases |s| - k
  {
    var i := FindFrom(s, t, k);
    if i == -1 then 0 else 1 + CountFrom(s, t, i + |t|)
  }

  /** `s.count(t)` */
  function Count(s: string, t: string): nat
    requires t != []
  {
    CountFrom(s, t, 0)
  }

  /** The pieces of `s[k..]` between the occurrences `CountFrom` finds. */
  function SplitFrom(s: string, sep: string, k: nat): (parts: seq<string>)
    requires sep != [] && k <= |s|
    ensures |parts| == CountFrom(s, sep, k) + 1
    decreases |s| - k
  {
    var i := FindFrom(s, sep, k);
    if i == -1 then [s[k..]] else [s[k..i]] + SplitFrom(s, sep, i + |sep|)
  }

  /** `s.split(sep)`: one piece more than there are separators. */
  function Split(s: string, sep: string): (parts: seq<string>)
    requires sep != []
    ensures |parts| == Count(s, sep) + 1
  {
    SplitFrom(s, sep, 0)
  }

  /** A split that finds a separator from `k`: the piece before it, then
      the split of what follows it. */
  lemma {:induction false} SplitUnfold(s: string, sep: string, k: nat, i: int)
    requires sep != [] && k <= |s| && i == FindFrom(s, sep, k) && i >= 0
    ensures SplitFrom(s, sep, k) == [s[k..i]] + SplitFrom(s, sep, i + |sep|)
  {
  }

  /** A split that finds no separator from `k` is the rest of the text. */
  lemma {:induction false} SplitNone(s: string, sep: string, k: nat)
    requires sep != [] && k <= |s| && FindFrom(s, sep, k) == -1
    ensures SplitFrom(s, sep, k) == [s[k..]]
  {
  }

  /** Joining a sequence with one more element in front. */
  lemma {:induction false} JoinCons(sep: string, x: string, xs: seq<string>)
    requires xs != []
    ensures Join(sep, [x] + xs) == x + sep + Join(sep, xs)
  {
    assert ([x] + xs)[1..] == xs;
  }

  /** A text is its part before an occurrence, the occurrence, and the rest. */
  lemma {:induction false} AroundOccurrence(s: string, t: string, k: int, i: int)
    requires 0 <= k <= i && OccursAt(s, t, i)
    ensures s[k..] == s[k..i] + t + s[i + |t|..]
  {
    assert s[k..] == s[k..i] + s[i..i + |t|] + s[i + |t|..];
  }

  /** Joining the pieces back with the separator gives the text split. */
  lemma {:induction false} SplitJoin(s: string, sep: string, k: nat, parts: seq<string>)
    requires sep != [] && k <= |s| && parts == SplitFrom(s, sep, k)
    ensures Join(sep, parts) == s[k..]
    decreases |s| - k
  {
    var i := FindFrom(s, sep, k);
    if i >= 0 {
      var rest := SplitFrom(s, sep, i + |sep|);
      SplitJoin(s, sep, i + |sep|, rest);
      SplitJoinStep(s, sep, k, i, rest);
    } else {
      SplitNone(s, sep, k);
      JoinOne(sep, s[k..]);
    }
  }

  /** The inductive step of `SplitJoin`: the first piece, the separator
      found, and the rest joined back. */
  lemma {:induction false} SplitJoinStep(s: string, sep: string, k: nat, i: int, rest: seq<string>)
    requires sep != [] && k <= |s| && i == FindFrom(s, sep, k) && i >= 0
    requires rest == SplitFrom(s, sep, i + |sep|) && Join(sep, rest) == s[i + |sep|..]
    ensures Join(sep, SplitFrom(s, sep, k)) == s[k..]
  {
    SplitUnfold(s, sep, k, i);
    AroundOccurrence(s, sep, k, i);
    JoinStep(sep, SplitFrom(s, sep, k), s[k..i], rest, s[k..], s[i + |sep|..]);
  }

  /** One step of joining: the first piece, the separator, the join of the
      rest. */
  lemma {:induction false} JoinStep(sep: string, parts: seq<string>, x: string, rest: seq<string>,
                                    whole: string, after: string)
    requires parts == [x] + rest && rest != []
    requires Join(sep, rest) == after && whole == x + sep + after
    ensures Join(sep, parts) == whole
  {
    JoinCons(sep, x, rest);
  }

  /** Joining a single piece gives that piece. */
  lemma {:induction false} JoinOne(sep: string, x: string)
    ensures Join(sep, [x]) == x
  {
  }

  /** No piece of a split holds the separator. */
  lemma {:induction false} SplitPiecesFree(s: string, sep: string, k: nat, parts: seq<string>)
    requires sep != [] && k <= |s| && parts == SplitFrom(s, sep, k)
    ensures forall p :: 0 <= p < |parts| ==> FreeOf(parts[p], sep)
    decreases |s| - k
  {
    var i := FindFrom(s, sep, k);
    var e := if i == -1 then |s| else i;
    assert FreeOf(s[k..e], sep) by {
      forall j ensures !OccursAt(s[k..e], sep, j) {
        OccursInSlice(s, sep, k, e, j);
      }
    }
    if i == -1 {
      SplitNone(s, sep, k);
      assert s[k..] == s[k..e];
    } else {
      var rest := SplitFrom(s, sep, i + |sep|);
      assert parts == [s[k..e]] + rest by { SplitUnfold(s, sep, k, i); }
      SplitPiecesFree(s, sep, i + |sep|, rest);
      ConsFree(sep, s[k..e], rest, parts);
    }
  }

  /** Pieces with one more marker-free piece in front stay marker-free. */
  lemma {:induction false} ConsFree(sep: string, x: string, rest: seq<string>, parts: seq<string>)
    requires parts == [x] + rest && FreeOf(x, sep)
    requires forall p :: 0 <= p < |rest| ==> FreeOf(rest[p], sep)
    ensures forall p :: 0 <= p < |parts| ==> FreeOf(parts[p], sep)
  {
    forall p | 0 <= p < |parts| ensures FreeOf(parts[p], sep) {
      if p > 0 {
        assert parts[p] == rest[p - 1];
      }
    }
  }

  /** Past the first separator, the rest splits into the remaining pieces. */
  lemma {:induction false} SplitAfterFirst(s: string, sep: string)
    requires sep != [] && Find(s, sep) >= 0
    ensures Split(s, sep)[1..] == SplitFrom(s, sep, Find(s, sep) + |sep|)
    ensures Count(s, sep) == 1 + CountFrom(s, sep, Find(s, sep) + |sep|)
  {
    SplitUnfold(s, sep, 0, Find(s, sep));
  }

  /** A text from `k` made of a front part, an occurrence and a back part. */
  lemma {:induction false} ThreeParts(s: string, k: nat, front: string, t: string, back: string)
    requires k <= |s| && s[k..] == front + t + back
    ensures var b := |s| - |back| - |t|;
            k <= b && s[k..b] == front && OccursAt(s, t, b)
    ensures back == s[|s| - |back|..]
  {
    var b := |s| - |back| - |t|;
    assert b == k + |front|;
    assert s[k..b] == s[k..][..|front|];
    assert s[b..b + |t|] == s[k..][|front|..|front| + |t|];
    assert s[|s| - |back|..] == s[k..][|front| + |t|..];
  }

  /** A suffix without `t` means no occurrence starts in it. */
  lemma {:induction false} FreeSuffix(s: string, t: string, c: nat)
    requires c <= |s| && FreeOf(s[c..], t)
    ensures forall j :: c <= j ==> !OccursAt(s, t, j)
  {
    forall j | c <= j ensures !OccursAt(s, t, j) {
      OccursInSlice(s, t, c, |s|, j - c);
      assert s[c..|s|] == s[c..];
    }
  }

  /** A split that finds a separator from `k`: the text from `k` is all
      pieces but the last, joined, then the last separator `b` the split
      finds, then the last piece, which holds no separator. */
  lemma {:induction false} LastSplitShape(s: string, sep: string, k: nat,
                                          parts: seq<string>, front: seq<string>, last: string)
    requires sep != [] && k <= |s| && CountFrom(s, sep, k) >= 1
    requires parts == SplitFrom(s, sep, k)
    requires front == parts[..|parts| - 1] && last == parts[|parts| - 1]
    ensures var b := |s| - |last| - |sep|;
            k <= b && s[k..b] == Join(sep, front) && OccursAt(s, sep, b)
            && forall j :: b + |sep| <= j ==> !OccursAt(s, sep, j)
  {
    var joined := Join(sep, front);
    assert s[k..] == joined + sep + last by {
      SplitJoin(s, sep, k, parts);
      JoinLast(sep, parts);
    }
    ThreeParts(s, k, joined, sep, last);
    assert FreeOf(last, sep) by { SplitPiecesFree(s, sep, k, parts); }
    FreeSuffix(s, sep, |s| - |last|);
  }

  /** Joining a sequence extended by one element. */
  lemma {:induction false} JoinSnoc(sep: string, xs: seq<string>, x: string)
    requires xs != []
    ensures Join(sep, xs + [x]) == Join(sep, xs) + sep + x
    decreases |xs|
  {
    if |xs| == 1 {
      assert xs + [x] == [xs[0], x];
    } else {
      assert (xs + [x])[1..] == xs[1..] + [x];
      JoinSnoc(sep, xs[1..], x);
    }
  }

  /** A text joined from at least two pieces: all but the last joined, the
      separator, the last piece. */
  lemma {:induction false} JoinLast(sep: string, parts: seq<string>)
    requires |parts| >= 2
    ensures Join(sep, parts) == Join(sep, parts[..|parts| - 1]) + sep + parts[|parts| - 1]
  {
    var n := |parts|;
    assert parts == parts[..n - 1] + [parts[n - 1]];
    JoinSnoc(sep, parts[..n - 1], parts[n - 1]);
  }

  /** Joining with the empty separator distributes over concatenation. */
  lemma {:induction false} ConcatAppend(xs: seq<string>, ys: seq<string>)
    ensures Join("", xs + ys) == Join("", xs) + Join("", ys)
    decreases |xs|
  {
    if xs == [] {
      assert xs + ys == ys;
    } else if ys == [] {
      assert xs + ys == xs;
    } else if |xs| == 1 {
      assert (xs + ys)[1..] == ys;
    } else {
      assert (xs + ys)[1..] == xs[1..] + ys;
      ConcatAppend(xs[1..], ys);
    }
  }
}
