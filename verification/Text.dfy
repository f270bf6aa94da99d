/** Searching a text from left to right: splitting it at a pattern, and replacing the pattern in place. */
module Text {
  import opened Basics

  ghost predicate Occurs(s: string, p: string, i: nat)
  {
    i + |p| <= |s| && s[i..i + |p|] == p
  }

  // i is the first place from `from` on where p occurs; no i means that there is none.
  ghost predicate IsFirst(s: string, p: string, from: nat, r: Option<nat>)
  {
    match r
    case None => forall j: nat :: from <= j ==> !Occurs(s, p, j)
    case Some(i) => from <= i && Occurs(s, p, i) && forall j: nat :: from <= j < i ==> !Occurs(s, p, j)
  }

  // The first n characters of p are in s from i on.
  predicate Matches(s: string, p: string, i: nat, n: nat)
    requires n <= |p| && i + n <= |s|
  {
    n == 0 || (Matches(s, p, i, n - 1) && s[i + n - 1] == p[n - 1])
  }

  /** find of the standard's strings. */
  function Find(s: string, p: string, from: nat): (r: Option<nat>)
    ensures r.Some? ==> from <= r.value && r.value + |p| <= |s|
    decreases |s| - from
  {
    if from + |p| > |s| then None
    else if Matches(s, p, from, |p|) then Some(from)
    else Find(s, p, from + 1)
  }

  lemma {:induction false} MatchesIs(s: string, p: string, i: nat, n: nat)
    requires n <= |p| && i + n <= |s|
    ensures Matches(s, p, i, n) <==> s[i..i + n] == p[..n]
  {
    if n > 0 {
      MatchesIs(s, p, i, n - 1);
      assert s[i..i + n] == s[i..i + (n - 1)] + [s[i + n - 1]];
      assert p[..n] == p[..n - 1] + [p[n - 1]];
      Ends(s[i..i + (n - 1)], s[i + n - 1], p[..n - 1], p[n - 1]);
    }
  }

  lemma Ends(a: string, c: char, b: string, d: char)
    requires |a| == |b|
    ensures a + [c] == b + [d] <==> a == b && c == d
  {
    if a + [c] == b + [d] {
      assert (a + [c])[|a|] == (b + [d])[|a|];
      assert forall k :: 0 <= k < |a| ==> a[k] == (a + [c])[k] == (b + [d])[k] == b[k];
    }
  }

  lemma {:induction false} FindIsFirst(s: string, p: string, from: nat)
    ensures IsFirst(s, p, from, Find(s, p, from))
    decreases |s| - from
  {
    if from + |p| <= |s| {
      MatchesIs(s, p, from, |p|);
      assert p[..|p|] == p;
      if !Matches(s, p, from, |p|) {
        FindIsFirst(s, p, from + 1);
        assert !Occurs(s, p, from);
      }
    }
  }

  lemma FindIs(s: string, p: string, from: nat, r: Option<nat>)
    requires IsFirst(s, p, from, r)
    ensures Find(s, p, from) == r
  {
    var q := Find(s, p, from);
    FindIsFirst(s, p, from);
    if q.Some? && r.Some? {
      assert q.value <= r.value && r.value <= q.value;
    }
  }

  /** An empty pattern is found at once, where the search starts. */
  lemma EmptyFound(s: string, from: nat)
    ensures Find(s, "", from) == if from <= |s| then Some(from) else None
  {
    if from <= |s| { assert Matches(s, "", from, 0); }
  }

  /** So neither loop ends with an empty pattern. split stays where it is. replace_all goes on behind what it has put
      in, but the text has grown by as much: there is always the same rest, and the pattern is found before it again. */
  lemma EmptyNeverEnds(s: string, pos: nat, des: string)
    requires Find(s, "", pos) == Some(pos)
    ensures Find(s, "", pos + |""|) == Some(pos)
    ensures var t := s[..pos] + des + s[pos..];
            Find(t, "", pos + |des|) == Some(pos + |des|) && |t| - (pos + |des|) == |s| - pos
  {
    EmptyFound(s, pos);
    EmptyFound(s[..pos] + des + s[pos..], pos + |des|);
  }

  lemma OccursLater(s: string, p: string, from: nat, j: nat)
    requires from <= |s|
    ensures Occurs(s[from..], p, j) <==> Occurs(s, p, from + j)
  {
    if from + j + |p| <= |s| { assert s[from..][j..j + |p|] == s[from + j..from + j + |p|]; }
  }

  function Moved(r: Option<nat>, n: nat): Option<nat>
  {
    match r case None => None case Some(i) => Some(n + i)
  }

  // A search that starts later is a search in the rest.
  lemma FirstLater(s: string, p: string, from: nat, r: Option<nat>)
    requires from <= |s|
    ensures IsFirst(s[from..], p, 0, r) <==> IsFirst(s, p, from, Moved(r, from))
  {
    forall j: nat ensures Occurs(s[from..], p, j) <==> Occurs(s, p, from + j) { OccursLater(s, p, from, j); }
    forall j: nat | from <= j ensures Occurs(s, p, j) <==> Occurs(s[from..], p, j - from) {
      OccursLater(s, p, from, j - from);
    }
  }

  /* ---- Splitting and joining ---- */

  // The pieces between occurrences of d, from `begin` on.
  function Pieces(s: string, d: string, begin: nat): (r: seq<string>)
    requires d != "" && begin <= |s|
    ensures r != []
    decreases |s| - begin
  {
    match Find(s, d, begin)
    case None => [s[begin..]]
    case Some(i) => [s[begin..i]] + Pieces(s, d, i + |d|)
  }

  function Split(s: string, d: string): seq<string>
    requires d != ""
  {
    Pieces(s, d, 0)
  }

  function Join(pieces: seq<string>, d: string): string
  {
    if pieces == [] then "" else if |pieces| == 1 then pieces[0] else pieces[0] + d + Join(pieces[1..], d)
  }

  lemma JoinMore(p: string, more: seq<string>, d: string)
    requires more != []
    ensures Join([p] + more, d) == p + d + Join(more, d)
  {
    assert ([p] + more)[1..] == more;
  }

  lemma Cut(s: string, begin: nat, i: nat, d: string)
    requires begin <= i && Occurs(s, d, i)
    ensures s[begin..] == s[begin..i] + d + s[i + |d|..]
  {
    assert s[begin..] == s[begin..i] + s[i..i + |d|] + s[i + |d|..];
  }

  lemma {:induction false} JoinPieces(s: string, d: string, begin: nat)
    requires d != "" && begin <= |s|
    ensures Join(Pieces(s, d, begin), d) == s[begin..]
    decreases |s| - begin
  {
    var r := Find(s, d, begin);
    FindIsFirst(s, d, begin);
    if r.Some? {
      var i := r.value;
      JoinMore(s[begin..i], Pieces(s, d, i + |d|), d);
      JoinPieces(s, d, i + |d|);
      Cut(s, begin, i, d);
    }
  }

  /** Joining what was split, with the same separator, gives back the text. */
  lemma JoinSplit(s: string, d: string)
    requires d != ""
    ensures Join(Split(s, d), d) == s
  {
    JoinPieces(s, d, 0);
    assert s[0..] == s;
  }

  // The separator is in no piece, and not across its end before the separator that follows.
  ghost predicate Clean(pieces: seq<string>, d: string)
  {
    pieces != [] && forall k :: 0 <= k < |pieces| ==> CleanAt(pieces, d, k)
  }

  ghost predicate CleanAt(pieces: seq<string>, d: string, k: nat)
    requires k < |pieces|
  {
    if k == |pieces| - 1 then IsFirst(pieces[k], d, 0, None) else IsFirst(pieces[k] + d, d, 0, Some(|pieces[k]|))
  }

  lemma CleanMore(p: string, more: seq<string>, d: string)
    requires more != []
    ensures Clean([p] + more, d) <==> IsFirst(p + d, d, 0, Some(|p|)) && Clean(more, d)
  {
    var all := [p] + more;
    if Clean(all, d) {
      assert CleanAt(all, d, 0);
      forall k | 0 <= k < |more| ensures CleanAt(more, d, k) { assert CleanAt(all, d, k + 1); }
    }
    if IsFirst(p + d, d, 0, Some(|p|)) && Clean(more, d) {
      forall k | 0 <= k < |all| ensures CleanAt(all, d, k) { assert k > 0 ==> CleanAt(more, d, k - 1); }
    }
  }

  lemma FirstInFront(p: string, d: string, rest: string)
    ensures IsFirst(p + d, d, 0, Some(|p|)) <==> IsFirst(p + d + rest, d, 0, Some(|p|))
  {
    var s := p + d + rest;
    forall j: nat | j <= |p| ensures Occurs(p + d, d, j) <==> Occurs(s, d, j) {
      assert (p + d)[j..j + |d|] == s[j..j + |d|];
    }
  }

  // The first piece, by the characterisation of Find.
  lemma FirstPiece(s: string, d: string, begin: nat, p: string, rest: string)
    requires begin <= |s| && s[begin..] == p + d + rest
    ensures IsFirst(p + d, d, 0, Some(|p|)) <==> IsFirst(s, d, begin, Some(begin + |p|))
  {
    FirstInFront(p, d, rest);
    FirstLater(s, d, begin, Some(|p|));
  }

  lemma OnePieceClean(s: string, d: string, begin: nat, i: nat, more: seq<string>)
    requires begin <= |s| && IsFirst(s, d, begin, Some(i)) && more != [] && Clean(more, d)
    ensures Clean([s[begin..i]] + more, d)
  {
    Cut(s, begin, i, d);
    FirstPiece(s, d, begin, s[begin..i], s[i + |d|..]);
    CleanMore(s[begin..i], more, d);
  }

  lemma {:induction false} PiecesClean(s: string, d: string, begin: nat)
    requires d != "" && begin <= |s|
    ensures Clean(Pieces(s, d, begin), d)
    decreases |s| - begin
  {
    FindIsFirst(s, d, begin);
    match Find(s, d, begin)
    case None =>
      FirstLater(s, d, begin, None);
    case Some(i) =>
      PiecesClean(s, d, i + |d|);
      OnePieceClean(s, d, begin, i, Pieces(s, d, i + |d|));
  }

  lemma {:induction false} CleanIsPieces(pieces: seq<string>, s: string, d: string, begin: nat)
    requires d != "" && begin <= |s| && Clean(pieces, d) && Join(pieces, d) == s[begin..]
    ensures pieces == Pieces(s, d, begin)
    decreases |pieces|
  {
    if |pieces| == 1 {
      assert CleanAt(pieces, d, 0);
      FirstLater(s, d, begin, None);
      FindIs(s, d, begin, None);
    } else {
      var p, more := pieces[0], pieces[1..];
      var rest, i := Join(more, d), begin + |pieces[0]|;
      assert pieces == [p] + more;
      CleanMore(p, more, d);
      FirstPiece(s, d, begin, p, rest);
      FindIs(s, d, begin, Some(i));
      Parts(s, begin, p, d, rest);
      CleanIsPieces(more, s, d, i + |d|);
    }
  }

  lemma Parts(s: string, begin: nat, p: string, d: string, rest: string)
    requires begin <= |s| && s[begin..] == p + d + rest
    ensures begin + |p| + |d| <= |s| && s[begin..begin + |p|] == p && s[begin + |p| + |d|..] == rest
  {
    assert s[begin..][..|p|] == p && s[begin..][|p| + |d|..] == rest;
  }

  /** split gives the one list that joins to the text and has each separator as far to the left as can be. */
  lemma SplitUnique(pieces: seq<string>, s: string, d: string)
    requires d != ""
    ensures pieces == Split(s, d) <==> Clean(pieces, d) && Join(pieces, d) == s
  {
    assert s[0..] == s;
    JoinPieces(s, d, 0);
    PiecesClean(s, d, 0);
    if Clean(pieces, d) && Join(pieces, d) == s { CleanIsPieces(pieces, s, d, 0); }
  }

  // ret has the pieces before `begin`.
  ghost predicate SplitTo(s: string, d: string, begin: nat, ret: seq<string>)
    requires d != "" && begin <= |s|
  {
    ret + Pieces(s, d, begin) == Split(s, d)
  }

  lemma SplitMore(s: string, d: string, begin: nat, ret: seq<string>, end: Option<nat>)
    requires d != "" && begin <= |s| && SplitTo(s, d, begin, ret) && Find(s, d, begin) == end
    ensures end.Some? ==> SplitTo(s, d, end.value + |d|, ret + [s[begin..end.value]])
    ensures end.None? ==> ret + [s[begin..]] == Split(s, d)
  {
    if end.Some? { OneBehind(ret, s[begin..end.value], Pieces(s, d, end.value + |d|)); }
  }

  lemma OneBehind(ret: seq<string>, p: string, more: seq<string>)
    ensures ret + ([p] + more) == ret + [p] + more
  {
  }

  /** split. */
  method SplitAt(s: string, des: string) returns (ret: seq<string>)
    requires des != ""
    ensures ret == Split(s, des)
  {
    ret := [];
    var begin: nat := 0;
    var end := Find(s, des, begin);
    while end.Some?
      invariant begin <= |s| && end == Find(s, des, begin) && SplitTo(s, des, begin, ret)
      decreases |s| - begin
    {
      SplitMore(s, des, begin, ret, end);
      ret := ret + [s[begin..end.value]];
      begin := end.value + |des|;
      end := Find(s, des, begin);
    }
    SplitMore(s, des, begin, ret, end);
    ret := ret + [s[begin..]];
  }

  /* ---- Replacing ---- */

  /** Every occurrence of src, taken from left to right without overlaps, replaced by des. */
  function Replaced(s: string, src: string, des: string): string
    requires src != ""
  {
    Join(Split(s, src), des)
  }

  /** A pattern replaced by itself, and one that does not occur, leave a text as it is. */
  lemma ReplacedSame(s: string, src: string, des: string)
    requires src != ""
    ensures Replaced(s, src, src) == s
    ensures Find(s, src, 0) == None ==> Replaced(s, src, des) == s
  {
    JoinSplit(s, src);
  }

  // Texts that end in the same way have the same pieces there.
  lemma SamePieces(s: string, t: string, d: string, b: nat, c: nat)
    requires d != "" && b <= |s| && c <= |t| && s[b..] == t[c..]
    ensures Pieces(s, d, b) == Pieces(t, d, c)
  {
    PiecesClean(s, d, b);
    JoinPieces(s, d, b);
    CleanIsPieces(Pieces(s, d, b), t, d, c);
  }

  // The text before k is done, and what is to become of the rest gives the result.
  ghost predicate ReplacedTo(s: string, src: string, des: string, k: nat, result: string)
    requires src != "" && k <= |s|
  {
    s[..k] + Join(Pieces(s, src, k), des) == result
  }

  lemma ReplaceStart(s: string, src: string, des: string)
    requires src != ""
    ensures ReplacedTo(s, src, des, 0, Replaced(s, src, des))
  {
  }

  lemma ReplaceEnd(s: string, src: string, des: string, k: nat, result: string)
    requires src != "" && k <= |s| && ReplacedTo(s, src, des, k, result) && Find(s, src, k) == None
    ensures s == result
  {
    assert s == s[..k] + s[k..];
  }

  lemma Spliced(s: string, k: nat, i: nat, n: nat, des: string, t: string)
    requires k <= i && i + n <= |s| && t == s[..i] + des + s[i + n..]
    ensures |t| == |s| + |des| - n && t[..i + |des|] == s[..k] + s[k..i] + des && t[i + |des|..] == s[i + n..]
  {
  }

  lemma Regrouped(a: string, b: string, c: string, d: string)
    ensures a + (b + c + d) == a + b + c + d
  {
  }

  lemma ReplaceStep(s: string, src: string, des: string, k: nat, i: nat, t: string, result: string)
    requires src != "" && k <= |s| && ReplacedTo(s, src, des, k, result) && Find(s, src, k) == Some(i)
    requires t == s[..i] + des + s[i + |src|..]
    ensures i + |des| <= |t| && |t| - (i + |des|) < |s| - k && ReplacedTo(t, src, des, i + |des|, result)
  {
    Spliced(s, k, i, |src|, des, t);
    var more := Pieces(s, src, i + |src|);
    JoinMore(s[k..i], more, des);
    SamePieces(s, t, src, i + |src|, i + |des|);
    Regrouped(s[..k], s[k..i], des, Join(more, des));
  }

  // A string that is changed in place.
  class Buffer {
    var text: string

    constructor (s: string)
      ensures text == s
    {
      text := s;
    }

    // std::string::replace.
    method Replace(pos: nat, n: nat, des: string)
      requires pos + n <= |text|
      modifies this
      ensures text == old(text[..pos]) + des + old(text[pos + n..])
    {
      text := text[..pos] + des + text[pos + n..];
    }

    // The next occurrence replaced.
    method ReplaceNext(pos: nat, src: string, des: string, ghost k: nat, ghost result: string)
      requires src != "" && k <= |text| && ReplacedTo(text, src, des, k, result) && Find(text, src, k) == Some(pos)
      modifies this
      ensures pos + |des| <= |text| && |text| - (pos + |des|) < old(|text|) - k
      ensures ReplacedTo(text, src, des, pos + |des|, result)
    {
      ghost var before := text;
      Replace(pos, |src|, des);
      ReplaceStep(before, src, des, k, pos, text, result);
    }

    /** replace_all: also when the replacement holds the pattern, which is not searched for in it again. */
    method ReplaceAll(src: string, des: string)
      requires src != ""
      modifies this
      ensures text == Replaced(old(text), src, des)
    {
      ghost var k: nat := 0;
      ghost var result := Replaced(text, src, des);
      ReplaceStart(text, src, des);
      var pos := Find(text, src, 0);
      while pos.Some?
        invariant k <= |text| && pos == Find(text, src, k) && ReplacedTo(text, src, des, k, result)
        decreases |text| - k
      {
        ReplaceNext(pos.value, src, des, k, result);
        k := pos.value + |des|;
        pos := Find(text, src, pos.value + |des|);
      }
      ReplaceEnd(text, src, des, k, result);
    }
  }
}
