/** extractJsonFromResponse: removing a Markdown code fence from model output.
    The source matches  /```(?:json)?\s*([\s\S]*?)\s*```/  once (no g flag) and
    returns the trimmed group, or the trimmed whole text when nothing matches.
    ExtractJson follows the regular-expression engine step by step; FencedBody
    is a declarative reading of the same thing, and ExtractJsonSpec proves the
    two agree. */
module CodeFence {
  import opened JsText

  /** Three backticks start at i. */
  predicate FenceAt(s: string, i: int) {
    0 <= i && i + 3 <= |s| && s[i] == '`' && s[i + 1] == '`' && s[i + 2] == '`'
  }

  /** The literal tag json starts at a. */
  predicate JsonTagAt(s: string, a: int) {
    0 <= a && a + 4 <= |s| && s[a] == 'j' && s[a + 1] == 's' && s[a + 2] == 'o' && s[a + 3] == 'n'
  }

  /** The first fence that starts at or after i. */
  function FindFence(s: string, i: nat): (r: Option<nat>)
    ensures r.Some? ==> i <= r.value && FenceAt(s, r.value)
    ensures r.Some? ==> forall j :: i <= j < r.value ==> !FenceAt(s, j)
    ensures r.None? ==> forall j :: i <= j ==> !FenceAt(s, j)
    decreases |s| - i
  {
    if i + 3 > |s| then None else if FenceAt(s, i) then Some(i) else FindFence(s, i + 1)
  }

  // ---------------------------------------------------------------------------
  // The regular-expression engine, piece by piece
  // ---------------------------------------------------------------------------

  /** Greedy \s* from i: the first position at or after i that is not whitespace. */
  function SkipSpace(s: string, i: nat): (r: nat)
    requires i <= |s|
    ensures i <= r <= |s|
    ensures forall k :: i <= k < r ==> IsSpace(s[k])
    ensures r < |s| ==> !IsSpace(s[r])
    decreases |s| - i
  {
    if i < |s| && IsSpace(s[i]) then SkipSpace(s, i + 1) else i
  }

  /** The lazy group ([\s\S]*?) tried with ends e, e+1, ... : the first end after
      which \s*``` matches. A backtick is not whitespace, so after the greedy \s*
      the closing fence can only stand at SkipSpace(s, end). */
  function LazyClose(s: string, e: nat): (r: Option<nat>)
    requires e <= |s|
    ensures r.Some? ==> e <= r.value <= |s| && FenceAt(s, SkipSpace(s, r.value))
    ensures r.Some? ==> forall k :: e <= k < r.value ==> !FenceAt(s, SkipSpace(s, k))
    ensures r.None? ==> forall k :: e <= k <= |s| ==> !FenceAt(s, SkipSpace(s, k))
    decreases |s| - e
  {
    if FenceAt(s, SkipSpace(s, e)) then Some(e)
    else if e == |s| then None
    else LazyClose(s, e + 1)
  }

  /** The group starting at b; when no closing fence follows, the greedy \s* in
      front of the group gives back one character and the group is tried again,
      down to a. Returns the bounds of the captured text. */
  function CaptureFrom(s: string, a: nat, b: nat): (r: Option<(nat, nat)>)
    requires a <= b <= |s|
    ensures r.Some? ==> a <= r.value.0 <= r.value.1 <= |s|
    decreases b
  {
    match LazyClose(s, b)
    case Some(e) => Some((b, e))
    case None => if b == a then None else CaptureFrom(s, a, b - 1)
  }

  /** \s*([\s\S]*?)\s*``` from position a. */
  function TryCapture(s: string, a: nat): (r: Option<(nat, nat)>)
    requires a <= |s|
    ensures r.Some? ==> a <= r.value.0 <= r.value.1 <= |s|
  {
    CaptureFrom(s, a, SkipSpace(s, a))
  }

  /** The whole pattern anchored at an opening fence at p: the optional group
      (?:json)? is greedy, so the tag is tried first and skipped on failure. */
  function MatchAt(s: string, p: nat): (r: Option<(nat, nat)>)
    requires FenceAt(s, p)
    ensures r.Some? ==> p + 3 <= r.value.0 <= r.value.1 <= |s|
  {
    if JsonTagAt(s, p + 3) then
      match TryCapture(s, p + 7)
      case Some(m) => Some(m)
      case None => TryCapture(s, p + 3)
    else TryCapture(s, p + 3)
  }

  /** String.prototype.match without the g flag: the leftmost start p at which
      the pattern matches, scanning from p. */
  function FirstMatch(s: string, p: nat): (r: Option<(nat, nat)>)
    ensures r.Some? ==> r.value.0 <= r.value.1 <= |s|
    decreases |s| - p
  {
    if p + 3 > |s| then None
    else if FenceAt(s, p) && MatchAt(s, p).Some? then MatchAt(s, p)
    else FirstMatch(s, p + 1)
  }

  /** extractJsonFromResponse. */
  function ExtractJson(response: string): string {
    match FirstMatch(response, 0)
    case Some((b, e)) => Trim(response[b..e])
    case None => Trim(response)
  }

  // ---------------------------------------------------------------------------
  // The declarative reading
  // ---------------------------------------------------------------------------

  /** Text that opens with the literal tag json loses it. */
  function StripJsonTag(t: string): string {
    if JsonTagAt(t, 0) then t[4..] else t
  }

  /** No three backticks in a row anywhere in s. */
  ghost predicate NoFence(s: string) {
    forall x :: !FenceAt(s, x)
  }

  /** Two non-overlapping fences occur in s. */
  ghost predicate HasFencePair(s: string) {
    exists i, j :: FenceAt(s, i) && FenceAt(s, j) && i + 3 <= j
  }

  /** The text between the first fence and the next fence that starts after it
      ends, less a leading json tag; None when there is no such pair. */
  function FencedBody(s: string): Option<string> {
    match FindFence(s, 0)
    case None => None
    case Some(o) =>
      match FindFence(s, o + 3)
      case None => None
      case Some(c) => Some(StripJsonTag(s[o + 3..c]))
  }

  // ---------------------------------------------------------------------------
  // Lemmas
  // ---------------------------------------------------------------------------

  /** Skipping characters that are not backticks skips no fence. */
  lemma FindFenceSkip(s: string, x: nat, y: nat)
    requires x <= y <= |s|
    requires forall k :: x <= k < y ==> s[k] != '`'
    ensures FindFence(s, x) == FindFence(s, y)
    decreases y - x
  {
    if x < y {
      assert !FenceAt(s, x);
      FindFenceSkip(s, x + 1, y);
    }
  }

  /** The lazy group closes iff some fence starts at or after its start. */
  lemma LazyCloseIff(s: string, e: nat)
    requires e <= |s|
    ensures LazyClose(s, e).Some? <==> FindFence(s, e).Some?
  {
    match FindFence(s, e)
    case Some(c) =>
      assert SkipSpace(s, c) == c;
    case None =>
  }

  /** With c the first fence at or after b (b not whitespace), the lazy group
      ends just before the whitespace that precedes c. */
  lemma LazyCloseAt(s: string, b: nat, c: nat)
    requires b <= |s| && FindFence(s, b) == Some(c)
    ensures LazyClose(s, b).Some?
    ensures var e := LazyClose(s, b).value;
            b <= e <= c && SkipSpace(s, e) == c && (e > b ==> !IsSpace(s[e - 1]))
  {
    LazyCloseIff(s, b);
    var e := LazyClose(s, b).value;
    assert SkipSpace(s, c) == c;
    var f := SkipSpace(s, e);
    assert f >= c;
    assert e <= c;
    assert !IsSpace(s[c]);
    if e > b {
      assert !FenceAt(s, SkipSpace(s, e - 1));
    }
  }

  /** CaptureFrom fails exactly when no fence follows its start. */
  lemma CaptureFromNone(s: string, a: nat, b: nat)
    requires a <= b <= |s|
    requires forall k :: a <= k < b ==> IsSpace(s[k])
    requires FindFence(s, b).None?
    ensures CaptureFrom(s, a, b).None?
    decreases b
  {
    LazyCloseIff(s, b);
    if b > a {
      FindFenceSkip(s, b - 1, b);
      CaptureFromNone(s, a, b - 1);
    }
  }

  /** A successful capture from a, when c is the first fence at or after a:
      the captured text is s[a..c] without its surrounding whitespace, and it
      contains no fence. */
  lemma TryCaptureAt(s: string, a: nat, c: nat)
    requires a <= |s| && FindFence(s, a) == Some(c)
    ensures TryCapture(s, a).Some?
    ensures var (b, e) := TryCapture(s, a).value;
            a <= b <= e <= c && s[b..e] == Trim(s[a..c]) && Trimmed(s[b..e])
            && forall k :: b <= k < c ==> !FenceAt(s, k)
  {
    var b := SkipSpace(s, a);
    FindFenceSkip(s, a, b);
    LazyCloseAt(s, b, c);
    var e := LazyClose(s, b).value;
    assert TryCapture(s, a) == Some((b, e));
    SpacedSlice(s, a, b, e, c);
  }

  /** s[b..e] is s[a..c] trimmed, when only whitespace lies outside it and
      none at its ends. */
  lemma SpacedSlice(s: string, a: nat, b: nat, e: nat, c: nat)
    requires a <= b <= e <= c <= |s|
    requires forall k :: a <= k < b ==> IsSpace(s[k])
    requires forall k :: e <= k < c ==> IsSpace(s[k])
    requires b < e ==> !IsSpace(s[b]) && !IsSpace(s[e - 1])
    ensures s[b..e] == Trim(s[a..c]) && Trimmed(s[b..e])
  {
    var w1, m, w2 := s[a..b], s[b..e], s[e..c];
    assert s[a..c] == w1 + m + w2;
    assert AllSpace(w1) by {
      forall k | 0 <= k < |w1| ensures IsSpace(w1[k]) { assert w1[k] == s[a + k]; }
    }
    assert AllSpace(w2) by {
      forall k | 0 <= k < |w2| ensures IsSpace(w2[k]) { assert w2[k] == s[e + k]; }
    }
    TrimAround(w1, m, w2);
  }

  lemma TryCaptureNone(s: string, a: nat)
    requires a <= |s| && FindFence(s, a).None?
    ensures TryCapture(s, a).None?
  {
    var b := SkipSpace(s, a);
    FindFenceSkip(s, a, b);
    CaptureFromNone(s, a, b);
  }

  /** The pattern anchored at a fence p matches iff another fence starts at p + 3
      or later, and then it captures the trimmed text between them less a json tag. */
  lemma MatchAtSpec(s: string, p: nat)
    requires FenceAt(s, p)
    ensures MatchAt(s, p).Some? <==> FindFence(s, p + 3).Some?
    ensures FindFence(s, p + 3).Some? ==>
              var c := FindFence(s, p + 3).value;
              var (b, e) := MatchAt(s, p).value;
              s[b..e] == Trim(StripJsonTag(s[p + 3..c]))
              && forall k :: b <= k < c ==> !FenceAt(s, k)
  {
    if JsonTagAt(s, p + 3) {
      MatchAtTagged(s, p);
    } else {
      MatchAtUntagged(s, p);
    }
  }

  lemma MatchAtTagged(s: string, p: nat)
    requires FenceAt(s, p) && JsonTagAt(s, p + 3)
    ensures MatchAt(s, p).Some? <==> FindFence(s, p + 3).Some?
    ensures FindFence(s, p + 3).Some? ==>
              var c := FindFence(s, p + 3).value;
              var (b, e) := MatchAt(s, p).value;
              s[b..e] == Trim(StripJsonTag(s[p + 3..c]))
              && forall k :: b <= k < c ==> !FenceAt(s, k)
  {
    FindFenceSkip(s, p + 3, p + 7);
    match FindFence(s, p + 3)
    case Some(c) =>
      TaggedCapture(s, p, c);
    case None =>
      TryCaptureNone(s, p + 7);
      TryCaptureNone(s, p + 3);
  }

  lemma TaggedCapture(s: string, p: nat, c: nat)
    requires FenceAt(s, p) && JsonTagAt(s, p + 3) && FindFence(s, p + 7) == Some(c)
    ensures MatchAt(s, p).Some?
    ensures var m := MatchAt(s, p).value;
            s[m.0..m.1] == Trim(StripJsonTag(s[p + 3..c])) && forall k :: m.0 <= k < c ==> !FenceAt(s, k)
  {
    TryCaptureAt(s, p + 7, c);
    TaggedBody(s, p, c);
    assert MatchAt(s, p) == TryCapture(s, p + 7);
  }

  lemma TaggedBody(s: string, p: nat, c: nat)
    requires FenceAt(s, p) && JsonTagAt(s, p + 3) && FindFence(s, p + 7) == Some(c)
    ensures StripJsonTag(s[p + 3..c]) == s[p + 7..c]
  {
    var t := s[p + 3..c];
    assert JsonTagAt(t, 0);
  }

  lemma MatchAtUntagged(s: string, p: nat)
    requires FenceAt(s, p) && !JsonTagAt(s, p + 3)
    ensures MatchAt(s, p).Some? <==> FindFence(s, p + 3).Some?
    ensures FindFence(s, p + 3).Some? ==>
              var c := FindFence(s, p + 3).value;
              var (b, e) := MatchAt(s, p).value;
              s[b..e] == Trim(StripJsonTag(s[p + 3..c]))
              && forall k :: b <= k < c ==> !FenceAt(s, k)
  {
    match FindFence(s, p + 3)
    case Some(c) =>
      TryCaptureAt(s, p + 3, c);
      assert !JsonTagAt(s[p + 3..c], 0);
    case None =>
      TryCaptureNone(s, p + 3);
  }

  /** Positions without a fence are passed over by the leftmost-match scan. */
  lemma FirstMatchSkip(s: string, p: nat, o: nat)
    requires p <= o && forall j :: p <= j < o ==> !FenceAt(s, j)
    ensures FirstMatch(s, p) == FirstMatch(s, o)
    decreases o - p
  {
    if p < o {
      FirstMatchSkip(s, p + 1, o);
    }
  }

  /** No match starts at or after p when no fence there has a partner. */
  lemma FirstMatchNone(s: string, p: nat)
    requires forall j :: p <= j && FenceAt(s, j) ==> FindFence(s, j + 3).None?
    ensures FirstMatch(s, p).None?
    decreases |s| - p
  {
    if p + 3 <= |s| {
      if FenceAt(s, p) {
        MatchAtSpec(s, p);
      }
      FirstMatchNone(s, p + 1);
    }
  }

  /** The regular expression captures what the declarative reading describes:
      the trimmed contents of the first fence pair less a json tag, or the
      whole text trimmed when there is no fence pair. */
  lemma ExtractJsonSpec(s: string)
    ensures FencedBody(s).Some? <==> HasFencePair(s)
    ensures ExtractJson(s) == match FencedBody(s)
                              case Some(body) => Trim(body)
                              case None => Trim(s)
  {
    match FindFence(s, 0)
    case None =>
      NoFenceExtract(s);
    case Some(o) =>
      match FindFence(s, o + 3)
      case None =>
        LoneFenceExtract(s, o);
      case Some(c) =>
        FencePairExtract(s, o, c);
  }

  lemma NoFenceExtract(s: string)
    requires FindFence(s, 0).None?
    ensures !HasFencePair(s) && ExtractJson(s) == Trim(s)
  {
    FirstMatchNone(s, 0);
  }

  lemma LoneFenceExtract(s: string, o: nat)
    requires FindFence(s, 0) == Some(o) && FindFence(s, o + 3).None?
    ensures !HasFencePair(s) && ExtractJson(s) == Trim(s)
  {
    FirstMatchSkip(s, 0, o);
    FirstMatchNone(s, o);
    assert FirstMatch(s, 0).None?;
  }

  lemma FencePairExtract(s: string, o: nat, c: nat)
    requires FindFence(s, 0) == Some(o) && FindFence(s, o + 3) == Some(c)
    ensures HasFencePair(s) && ExtractJson(s) == Trim(StripJsonTag(s[o + 3..c]))
  {
    FirstMatchSkip(s, 0, o);
    MatchAtSpec(s, o);
    assert FirstMatch(s, 0) == MatchAt(s, o);
    var (b, e) := MatchAt(s, o).value;
    TrimOfTrimmedSlice(s, b, e, StripJsonTag(s[o + 3..c]));
  }

  lemma TrimOfTrimmedSlice(s: string, b: nat, e: nat, body: string)
    requires b <= e <= |s| && s[b..e] == Trim(body)
    ensures Trim(s[b..e]) == Trim(body)
  {
    TrimIdempotent(body);
  }

  /** A fence inside a slice is a fence of the whole text. */
  lemma SliceFence(s: string, i: nat, j: nat, k: int)
    requires i <= j <= |s| && FenceAt(s[i..j], k)
    ensures FenceAt(s, i + k)
  {
    assert s[i..j][k] == s[i + k] && s[i..j][k + 1] == s[i + k + 1] && s[i..j][k + 2] == s[i + k + 2];
  }

  lemma SliceFencePair(s: string, i: nat, j: nat)
    requires i <= j <= |s| && HasFencePair(s[i..j])
    ensures HasFencePair(s)
  {
    var x, y :| FenceAt(s[i..j], x) && FenceAt(s[i..j], y) && x + 3 <= y;
    SliceFence(s, i, j, x);
    SliceFence(s, i, j, y);
  }

  /** The unwrapped text has no whitespace at either end and no fence pair left. */
  lemma ExtractJsonShape(s: string)
    ensures Trimmed(ExtractJson(s))
    ensures !HasFencePair(ExtractJson(s))
  {
    ExtractJsonSpec(s);
    match FencedBody(s)
    case None =>
      UnfencedShape(s);
    case Some(_) =>
      FencedShape(s, FindFence(s, 0).value, FindFence(s, FindFence(s, 0).value + 3).value);
      NoFenceNoPair(ExtractJson(s));
  }

  lemma UnfencedShape(s: string)
    requires FencedBody(s).None? && ExtractJson(s) == Trim(s)
    ensures Trimmed(ExtractJson(s)) && !HasFencePair(ExtractJson(s))
  {
    ExtractJsonSpec(s);
    TrimSpec(s);
    var i, j :| 0 <= i <= j <= |s| && Trim(s) == s[i..j] && AllSpace(s[..i]) && AllSpace(s[j..]);
    if HasFencePair(s[i..j]) {
      SliceFencePair(s, i, j);
    }
  }

  lemma FencedShape(s: string, o: nat, c: nat)
    requires FindFence(s, 0) == Some(o) && FindFence(s, o + 3) == Some(c)
    ensures Trimmed(ExtractJson(s)) && NoFence(ExtractJson(s))
  {
    var body := StripJsonTag(s[o + 3..c]);
    assert FencedBody(s) == Some(body);
    ExtractJsonSpec(s);
    assert ExtractJson(s) == Trim(body);
    BodyShape(s, o, c);
  }

  /** The trimmed text between a fence at o and the first fence at or after
      o + 3, less a json tag, holds no fence at all. */
  lemma BodyShape(s: string, o: nat, c: nat)
    requires o + 3 <= |s| && FindFence(s, o + 3) == Some(c)
    ensures Trimmed(Trim(StripJsonTag(s[o + 3..c])))
    ensures NoFence(Trim(StripJsonTag(s[o + 3..c])))
  {
    TrimSpec(StripJsonTag(s[o + 3..c]));
    var start := BodyStartAt(s, o, c);
    TrimNoFencePair(s, start, c);
  }

  lemma TrimNoFencePair(s: string, lo: nat, hi: nat)
    requires lo <= hi <= |s|
    requires forall k :: lo <= k < hi ==> !FenceAt(s, k)
    ensures NoFence(Trim(s[lo..hi]))
  {
    var a, b := TrimOfSlice(s, lo, hi);
    NoFenceInSlice(s, a, b);
  }

  lemma TrimOfSlice(s: string, lo: nat, hi: nat) returns (a: nat, b: nat)
    requires lo <= hi <= |s|
    ensures lo <= a <= b <= hi && Trim(s[lo..hi]) == s[a..b]
  {
    var t := s[lo..hi];
    var i, j := TrimBounds(t);
    SliceOfSlice(s, lo, hi, i, j);
    a, b := lo + i, lo + j;
    calc {
      Trim(t);
      t[i..j];
      s[a..b];
    }
  }

  lemma NoFenceNoPair(t: string)
    requires NoFence(t)
    ensures !HasFencePair(t)
  {
  }

  lemma SliceOfSlice(s: string, lo: nat, hi: nat, i: nat, j: nat)
    requires lo <= hi <= |s| && i <= j <= hi - lo
    ensures s[lo..hi][i..j] == s[lo + i..lo + j]
  {
    assert forall k :: 0 <= k < j - i ==> s[lo..hi][i..j][k] == s[lo + i + k];
  }

  /** Where the body of a fence pair (o, c) starts: after the json tag, if any. */
  lemma BodyStartAt(s: string, o: nat, c: nat) returns (start: nat)
    requires o + 3 <= |s| && FindFence(s, o + 3) == Some(c)
    ensures o + 3 <= start <= c && StripJsonTag(s[o + 3..c]) == s[start..c]
  {
    if JsonTagAt(s[o + 3..c], 0) {
      start := o + 7;
    } else {
      start := o + 3;
    }
  }

  /** A slice that overlaps no fence of s holds no fence at all. */
  lemma NoFenceInSlice(s: string, lo: nat, hi: nat)
    requires lo <= hi <= |s|
    requires forall k :: lo <= k && k + 3 <= hi ==> !FenceAt(s, k)
    ensures NoFence(s[lo..hi])
  {
    forall x | FenceAt(s[lo..hi], x)
      ensures false
    {
      SliceFence(s, lo, hi, x);
    }
  }

  /** Unwrapping is idempotent. */
  lemma ExtractJsonIdempotent(s: string)
    ensures ExtractJson(ExtractJson(s)) == ExtractJson(s)
  {
    var r := ExtractJson(s);
    ExtractJsonShape(s);
    ExtractJsonSpec(r);
    TrimOfTrimmed(r);
  }

  predicate NoBacktick(t: string) {
    forall k :: 0 <= k < |t| ==> t[k] != '`'
  }

  /** Text wrapped in one fence pair, with no backtick inside. */
  lemma SingleFencePair(u: string)
    requires NoBacktick(u)
    ensures var s := "```" + u + "```";
            FindFence(s, 0) == Some(0) && FindFence(s, 3) == Some(3 + |u|) && s[3..3 + |u|] == u
  {
    var s := "```" + u + "```";
    assert FenceAt(s, 0);
    var c := 3 + |u|;
    assert forall k :: 3 <= k < c ==> s[k] == u[k - 3];
    FindFenceSkip(s, 3, c);
    assert FenceAt(s, c);
  }

  /** One fence pair around text without backticks unwraps to that text,
      trimmed and less a json tag. */
  lemma SingleFenceUnwrapped(u: string)
    requires NoBacktick(u)
    ensures ExtractJson("```" + u + "```") == Trim(StripJsonTag(u))
  {
    var s := "```" + u + "```";
    SingleFencePair(u);
    assert FencedBody(s) == Some(StripJsonTag(u));
    ExtractJsonSpec(s);
  }

  /** The tag json in front of text without backticks. */
  lemma JsonTagged(t: string, u: string)
    requires NoBacktick(t) && u == "json" + t
    ensures NoBacktick(u) && StripJsonTag(u) == t
  {
    forall k | 0 <= k < |u|
      ensures u[k] != '`'
    {
      if k >= 4 {
        assert u[k] == t[k - 4];
      }
    }
    assert JsonTagAt(u, 0) && u[4..] == t;
  }

  /** A fence tagged json yields its trimmed contents without the tag. */
  lemma JsonTagSkipped(t: string, s: string)
    requires NoBacktick(t) && s == "```json" + t + "```"
    ensures ExtractJson(s) == Trim(t)
  {
    var u := "json" + t;
    JsonTagged(t, u);
    assert "```json" == "```" + "json";
    assert s == "```" + u + "```";
    SingleFenceUnwrapped(u);
  }

  /** Any other tag, such as javascript, stays at the head of the contents. */
  lemma OtherTagKept(t: string)
    requires NoBacktick(t) && !JsonTagAt(t, 0)
    ensures ExtractJson("```" + t + "```") == Trim(t)
  {
    SingleFenceUnwrapped(t);
  }
}
