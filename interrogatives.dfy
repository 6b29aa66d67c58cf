/** The whole-word interrogative substitution of the variation fallback:
    replace(/\b(what|how|why|when|where)\b/gi, m => alternatives[m.toLowerCase()] || m).
    ReplaceFrom follows a global replace of \b(k1|k2|...)\b with the i flag
    position by position, for any alternation of lower-case words and any
    callback; MapWords is a word-by-word reading of the same thing, and
    ReplaceIsMapWords proves that the two agree whenever the callback keeps
    the words that are no keyword. Substitute and Reworded are the two
    readings for the source's own keywords and callback. */
module Interrogatives {
  import opened JsText

  /** \w without the u flag: ASCII letters, digits and the underscore. */
  predicate IsWordChar(c: char) {
    'a' <= c <= 'z' || 'A' <= c <= 'Z' || '0' <= c <= '9' || c == '_'
  }

  /** \b at position i: a word character on exactly one side. */
  predicate IsBoundary(s: string, i: nat)
    requires i <= |s|
  {
    (i > 0 && IsWordChar(s[i - 1])) != (i < |s| && IsWordChar(s[i]))
  }

  /** The alternation, in the order the regular expression tries it. */
  const Keywords: seq<string> := ["what", "how", "why", "when", "where"]

  /** The alternatives object of the replace callback. */
  const Alternatives: map<string, string> :=
    map["what" := "which", "how" := "in what way", "why" := "for what reason",
        "when" := "at what time", "where" := "in which location"]

  /** The callback: the alternative of the lower-cased match, or the match itself. */
  function Replacement(m: string): (r: string)
    ensures ToLower(m) in Alternatives ==> r == Alternatives[ToLower(m)]
    ensures ToLower(m) !in Alternatives ==> r == m
  {
    if ToLower(m) in Alternatives then Alternatives[ToLower(m)] else m
  }

  /** A non-empty word of lower-case ASCII letters. */
  predicate LowerWord(w: string) {
    |w| > 0 && forall i :: 0 <= i < |w| ==> 'a' <= w[i] <= 'z'
  }

  predicate LowerWords(keys: seq<string>) {
    forall k :: 0 <= k < |keys| ==> LowerWord(keys[k])
  }

  /** Keyword w matches at p under the i flag (ASCII case folding). */
  predicate CaseMatchAt(s: string, p: nat, w: string) {
    p + |w| <= |s| && forall i :: 0 <= i < |w| ==> LowerChar(s[p + i]) == w[i]
  }

  /** \b(w)\b matches at p. */
  predicate KeywordMatch(s: string, p: nat, w: string) {
    p + |w| <= |s| && IsBoundary(s, p) && CaseMatchAt(s, p, w) && IsBoundary(s, p + |w|)
  }

  /** The first alternative, from index k on, that matches at p (what that
      means is KeywordFromSpec). */
  function KeywordFrom(s: string, p: nat, keys: seq<string>, k: nat): (r: Option<nat>)
    requires k <= |keys|
    ensures r.Some? ==> k <= r.value < |keys| && p + |keys[r.value]| <= |s|
    decreases |keys| - k
  {
    if k == |keys| then None
    else if KeywordMatch(s, p, keys[k]) then Some(k)
    else KeywordFrom(s, p, keys, k + 1)
  }

  function KeywordAt(s: string, p: nat, keys: seq<string>): Option<nat> {
    KeywordFrom(s, p, keys, 0)
  }

  /** The global replace from position p: at each position the pattern is tried;
      a match is replaced by the callback's value and the scan resumes after it,
      otherwise one character is copied. */
  function ReplaceFrom(s: string, p: nat, keys: seq<string>, repl: string -> string): string
    requires p <= |s| && LowerWords(keys)
    decreases |s| - p
  {
    if p == |s| then []
    else match KeywordAt(s, p, keys)
      case Some(k) => repl(s[p..p + |keys[k]|]) + ReplaceFrom(s, p + |keys[k]|, keys, repl)
      case None => [s[p]] + ReplaceFrom(s, p + 1, keys, repl)
  }

  lemma KeywordsLower()
    ensures LowerWords(Keywords)
  {
  }

  /** The regular-expression reading of the fallback's substitution. */
  function Substitute(s: string): string {
    KeywordsLower();
    ReplaceFrom(s, 0, Keywords, Replacement)
  }

  // ---------------------------------------------------------------------------
  // The word-by-word reading
  // ---------------------------------------------------------------------------

  /** The length of the run of word characters at the head of s. */
  function WordLength(s: string): (n: nat)
    ensures n <= |s|
    ensures forall i :: 0 <= i < n ==> IsWordChar(s[i])
    ensures n < |s| ==> !IsWordChar(s[n])
  {
    if s != [] && IsWordChar(s[0]) then 1 + WordLength(s[1..]) else 0
  }

  /** Every maximal run of word characters goes through f; every other
      character is kept. */
  function MapWords(s: string, f: string -> string): string
    decreases |s|
  {
    if s == [] then []
    else if IsWordChar(s[0]) then
      var n := WordLength(s);
      f(s[..n]) + MapWords(s[n..], f)
    else [s[0]] + MapWords(s[1..], f)
  }

  /** The word-by-word reading of the fallback's substitution. */
  function Reworded(s: string): string {
    MapWords(s, Replacement)
  }

  /** Text that is no keyword in any letter case. */
  predicate Other(keys: seq<string>, w: string) {
    ToLower(w) !in keys
  }

  /** The callback keeps every text that is no keyword. */
  ghost predicate KeepsOthers(keys: seq<string>, repl: string -> string) {
    forall w {:trigger Other(keys, w)} :: Other(keys, w) ==> repl(w) == w
  }

  // ---------------------------------------------------------------------------
  // Lemmas
  // ---------------------------------------------------------------------------

  /** Every keyword is a key of the alternatives, so the fallback "|| m" of the
      callback never fires on a match. */
  lemma KeywordsHaveAlternatives()
    ensures forall k :: 0 <= k < |Keywords| ==> Keywords[k] in Alternatives
    ensures forall w :: w in Alternatives <==> w in Keywords
  {
  }

  /** A word that is no keyword is kept by the callback. */
  lemma KeptWord(w: string)
    requires ToLower(w) !in Keywords
    ensures Replacement(w) == w
  {
  }

  lemma CallbackKeepsOthers()
    ensures KeepsOthers(Keywords, Replacement)
  {
    forall w | Other(Keywords, w)
      ensures Replacement(w) == w
    {
      KeptWord(w);
    }
  }

  /** A matched keyword spans exactly the word run at p. */
  lemma MatchIsWholeWord(s: string, p: nat, w: string)
    requires LowerWord(w) && KeywordMatch(s, p, w)
    ensures |w| == WordLength(s[p..])
    ensures ToLower(s[p..p + |w|]) == w
  {
    var t := s[p..];
    forall i | 0 <= i < |w|
      ensures IsWordChar(t[i])
    {
      assert t[i] == s[p + i] && LowerChar(s[p + i]) == w[i];
    }
    WordLengthIs(t, |w|);
    assert ToLower(s[p..p + |w|]) == w;
  }

  /** WordLength is the end of the run of word characters. */
  lemma {:induction false} WordLengthIs(t: string, n: nat)
    requires n <= |t| && forall i :: 0 <= i < n ==> IsWordChar(t[i])
    requires n < |t| ==> !IsWordChar(t[n])
    ensures WordLength(t) == n
    decreases n
  {
    if n > 0 {
      WordLengthIs(t[1..], n - 1);
    }
  }

  /** The word run at p, in positions of s. */
  lemma WordRun(s: string, p: nat)
    requires p < |s| && IsWordChar(s[p])
    ensures var n := WordLength(s[p..]);
            1 <= n && p + n <= |s| && (p + n < |s| ==> !IsWordChar(s[p + n]))
            && forall i :: p <= i < p + n ==> IsWordChar(s[i])
  {
    var t := s[p..];
    var n := WordLength(t);
    assert t[0] == s[p];
    assert forall i :: p <= i < p + n ==> s[i] == t[i - p];
    if p + n < |s| {
      assert t[n] == s[p + n];
    }
  }

  /** The alternation tries its alternatives in order: the result is the
      first one that matches, and None when none does. */
  lemma {:induction false} KeywordFromSpec(s: string, p: nat, keys: seq<string>, k: nat)
    requires k <= |keys|
    ensures var r := KeywordFrom(s, p, keys, k);
            (r.Some? ==> KeywordMatch(s, p, keys[r.value])
                         && forall j :: k <= j < r.value ==> !KeywordMatch(s, p, keys[j]))
            && (r.None? ==> forall j :: k <= j < |keys| ==> !KeywordMatch(s, p, keys[j]))
    decreases |keys| - k
  {
    if k < |keys| && !KeywordMatch(s, p, keys[k]) {
      KeywordFromSpec(s, p, keys, k + 1);
    }
  }

  /** Where no boundary stands, the pattern cannot match. */
  lemma NoMatchOffBoundary(s: string, p: nat, keys: seq<string>)
    requires p <= |s| && !IsBoundary(s, p)
    ensures KeywordAt(s, p, keys).None?
  {
    KeywordFromSpec(s, p, keys, 0);
  }

  /** A keyword never starts with a non-word character. */
  lemma NoMatchAtNonWord(s: string, p: nat, keys: seq<string>)
    requires LowerWords(keys) && p < |s| && !IsWordChar(s[p])
    ensures KeywordAt(s, p, keys).None?
  {
    forall j | 0 <= j < |keys|
      ensures !KeywordMatch(s, p, keys[j])
    {
      assert 'a' <= keys[j][0] <= 'z';
    }
    KeywordFromSpec(s, p, keys, 0);
  }

  lemma SliceCons(s: string, i: nat, j: nat)
    requires i < j <= |s|
    ensures s[i..j] == [s[i]] + s[i + 1..j]
  {
  }

  /** One step of the scan without a match. */
  lemma CopyStep(s: string, p: nat, keys: seq<string>, repl: string -> string)
    requires LowerWords(keys) && p < |s| && KeywordAt(s, p, keys).None?
    ensures ReplaceFrom(s, p, keys, repl) == [s[p]] + ReplaceFrom(s, p + 1, keys, repl)
  {
  }

  /** One step of the scan with a match. */
  lemma MatchStep(s: string, p: nat, keys: seq<string>, repl: string -> string, k: nat)
    requires LowerWords(keys) && p < |s| && KeywordAt(s, p, keys) == Some(k)
    ensures k < |keys| && p + |keys[k]| <= |s|
    ensures ReplaceFrom(s, p, keys, repl)
            == repl(s[p..p + |keys[k]|]) + ReplaceFrom(s, p + |keys[k]|, keys, repl)
  {
  }

  /** One step of the word-by-word reading. */
  lemma MapWordsStep(t: string, f: string -> string)
    requires t != []
    ensures !IsWordChar(t[0]) ==> MapWords(t, f) == [t[0]] + MapWords(t[1..], f)
    ensures IsWordChar(t[0]) ==>
      MapWords(t, f) == f(t[..WordLength(t)]) + MapWords(t[WordLength(t)..], f)
  {
  }

  /** At a word start whose run, lower-cased, is keyword k, the pattern matches
      and replaces exactly that run. */
  lemma KeywordAtWord(s: string, p: nat, keys: seq<string>, k: nat)
    requires LowerWords(keys)
    requires p < |s| && IsWordChar(s[p]) && (p == 0 || !IsWordChar(s[p - 1]))
    requires k < |keys| && ToLower(s[p..p + WordLength(s[p..])]) == keys[k]
    ensures KeywordAt(s, p, keys).Some?
    ensures |keys[KeywordAt(s, p, keys).value]| == WordLength(s[p..])
  {
    var t := s[p..];
    var n := WordLength(t);
    assert forall i :: 0 <= i < n ==> ToLower(s[p..p + n])[i] == LowerChar(t[i]);
    assert IsBoundary(s, p);
    assert KeywordMatch(s, p, keys[k]);
    KeywordFromSpec(s, p, keys, 0);
    var j := KeywordAt(s, p, keys).value;
    MatchIsWholeWord(s, p, keys[j]);
  }

  /** At a position whose run is not a keyword, the pattern does not match. */
  lemma NoKeywordAtWord(s: string, p: nat, keys: seq<string>)
    requires LowerWords(keys) && p <= |s|
    requires ToLower(s[p..p + WordLength(s[p..])]) !in keys
    ensures KeywordAt(s, p, keys).None?
  {
    if KeywordAt(s, p, keys).Some? {
      KeywordFromSpec(s, p, keys, 0);
      var j := KeywordAt(s, p, keys).value;
      MatchIsWholeWord(s, p, keys[j]);
    }
  }

  /** Inside a word the pattern cannot start, so the scan copies up to the
      run's end. */
  lemma {:induction false} CopyInsideWord(s: string, q: nat, e: nat, keys: seq<string>, repl: string -> string)
    requires LowerWords(keys) && 0 < q <= e <= |s|
    requires forall i :: q - 1 <= i < e ==> IsWordChar(s[i])
    ensures ReplaceFrom(s, q, keys, repl) == s[q..e] + ReplaceFrom(s, e, keys, repl)
    decreases e - q
  {
    if q < e {
      NoMatchOffBoundary(s, q, keys);
      CopyStep(s, q, keys, repl);
      CopyInsideWord(s, q + 1, e, keys, repl);
      SliceCons(s, q, e);
    }
  }

  /** From a position that is not inside a word, the scan and the word-by-word
      reading agree. */
  lemma {:induction false} ReplaceFromWordStart(s: string, p: nat, keys: seq<string>, repl: string -> string)
    requires LowerWords(keys) && KeepsOthers(keys, repl)
    requires p <= |s| && (p == 0 || p == |s| || !IsWordChar(s[p - 1]) || !IsWordChar(s[p]))
    ensures ReplaceFrom(s, p, keys, repl) == MapWords(s[p..], repl)
    decreases |s| - p, 1
  {
    if p == |s| {
      assert s[p..] == [];
    } else if !IsWordChar(s[p]) {
      NonWordCase(s, p, keys, repl);
    } else {
      WordCase(s, p, keys, repl);
    }
  }

  lemma {:induction false} NonWordCase(s: string, p: nat, keys: seq<string>, repl: string -> string)
    requires LowerWords(keys) && KeepsOthers(keys, repl)
    requires p < |s| && !IsWordChar(s[p])
    ensures ReplaceFrom(s, p, keys, repl) == MapWords(s[p..], repl)
    decreases |s| - p, 0
  {
    ReplaceFromWordStart(s, p + 1, keys, repl);
    NonWordStep(s, p, keys, repl);
  }

  lemma {:induction false} WordCase(s: string, p: nat, keys: seq<string>, repl: string -> string)
    requires LowerWords(keys) && KeepsOthers(keys, repl)
    requires p < |s| && IsWordChar(s[p]) && (p == 0 || !IsWordChar(s[p - 1]))
    ensures ReplaceFrom(s, p, keys, repl) == MapWords(s[p..], repl)
    decreases |s| - p, 0
  {
    var n := WordLength(s[p..]);
    WordRun(s, p);
    ReplaceFromWordStart(s, p + n, keys, repl);
    WordStep(s, p, keys, repl);
  }

  lemma NonWordStep(s: string, p: nat, keys: seq<string>, repl: string -> string)
    requires LowerWords(keys) && p < |s| && !IsWordChar(s[p])
    requires ReplaceFrom(s, p + 1, keys, repl) == MapWords(s[p + 1..], repl)
    ensures ReplaceFrom(s, p, keys, repl) == MapWords(s[p..], repl)
  {
    var t := s[p..];
    MapWordsStep(t, repl);
    NoMatchAtNonWord(s, p, keys);
    CopyStep(s, p, keys, repl);
    assert t[1..] == s[p + 1..];
  }

  lemma WordStep(s: string, p: nat, keys: seq<string>, repl: string -> string)
    requires LowerWords(keys) && KeepsOthers(keys, repl)
    requires p < |s| && IsWordChar(s[p]) && (p == 0 || !IsWordChar(s[p - 1]))
    requires ReplaceFrom(s, p + WordLength(s[p..]), keys, repl) == MapWords(s[p + WordLength(s[p..])..], repl)
    ensures ReplaceFrom(s, p, keys, repl) == MapWords(s[p..], repl)
  {
    var t := s[p..];
    var n := WordLength(t);
    MapWordsStep(t, repl);
    assert s[p..p + n] == t[..n];
    assert t[n..] == s[p + n..];
    if ToLower(t[..n]) in keys {
      KeywordWordStep(s, p, keys, repl);
    } else {
      PlainWordStep(s, p, keys, repl);
    }
  }

  /** A whole word that is a keyword: the scan replaces it in one step. */
  lemma KeywordWordStep(s: string, p: nat, keys: seq<string>, repl: string -> string)
    requires LowerWords(keys)
    requires p < |s| && IsWordChar(s[p]) && (p == 0 || !IsWordChar(s[p - 1]))
    requires ToLower(s[p..p + WordLength(s[p..])]) in keys
    ensures ReplaceFrom(s, p, keys, repl)
            == repl(s[p..p + WordLength(s[p..])]) + ReplaceFrom(s, p + WordLength(s[p..]), keys, repl)
  {
    var n := WordLength(s[p..]);
    var k :| 0 <= k < |keys| && keys[k] == ToLower(s[p..p + n]);
    KeywordAtWord(s, p, keys, k);
    var j := KeywordAt(s, p, keys).value;
    assert |keys[j]| == n;
    MatchStep(s, p, keys, repl, j);
  }

  /** A whole word that is no keyword: the scan copies it character by character. */
  lemma PlainWordStep(s: string, p: nat, keys: seq<string>, repl: string -> string)
    requires LowerWords(keys) && KeepsOthers(keys, repl)
    requires p < |s| && IsWordChar(s[p])
    requires ToLower(s[p..p + WordLength(s[p..])]) !in keys
    ensures ReplaceFrom(s, p, keys, repl)
            == repl(s[p..p + WordLength(s[p..])]) + ReplaceFrom(s, p + WordLength(s[p..]), keys, repl)
  {
    var n := WordLength(s[p..]);
    var w := s[p..p + n];
    NoKeywordAtWord(s, p, keys);
    assert Other(keys, w);
    WordRun(s, p);
    CopyWord(s, p, n, keys, repl);
  }

  /** A word run at which the pattern does not match is copied whole. */
  lemma CopyWord(s: string, p: nat, n: nat, keys: seq<string>, repl: string -> string)
    requires LowerWords(keys) && 1 <= n && p + n <= |s| && KeywordAt(s, p, keys).None?
    requires forall i :: p <= i < p + n ==> IsWordChar(s[i])
    ensures ReplaceFrom(s, p, keys, repl) == s[p..p + n] + ReplaceFrom(s, p + n, keys, repl)
  {
    CopyStep(s, p, keys, repl);
    CopyInsideWord(s, p + 1, p + n, keys, repl);
    SliceCons(s, p, p + n);
    assert [s[p]] + (s[p + 1..p + n] + ReplaceFrom(s, p + n, keys, repl))
           == ([s[p]] + s[p + 1..p + n]) + ReplaceFrom(s, p + n, keys, repl);
  }

  /** A global replace of whole lower-case keywords, with a callback that keeps
      every other text, rewrites each whole word and keeps everything else. */
  lemma ReplaceIsMapWords(s: string, keys: seq<string>, repl: string -> string)
    requires LowerWords(keys) && KeepsOthers(keys, repl)
    ensures ReplaceFrom(s, 0, keys, repl) == MapWords(s, repl)
  {
    ReplaceFromWordStart(s, 0, keys, repl);
  }

  /** The fallback's replace rewrites each whole word and keeps everything else. */
  lemma SubstituteIsReworded(s: string)
    ensures Substitute(s) == Reworded(s)
  {
    KeywordsLower();
    CallbackKeepsOthers();
    ReplaceIsMapWords(s, Keywords, Replacement);
  }

  /** Text in which the pattern never matches is left unchanged. */
  lemma {:induction false} NoMatchUnchanged(s: string, p: nat, keys: seq<string>, repl: string -> string)
    requires LowerWords(keys)
    requires p <= |s| && forall q :: p <= q < |s| ==> KeywordAt(s, q, keys).None?
    ensures ReplaceFrom(s, p, keys, repl) == s[p..]
    decreases |s| - p
  {
    if p < |s| {
      CopyStep(s, p, keys, repl);
      NoMatchUnchanged(s, p + 1, keys, repl);
      SliceCons(s, p, |s|);
    }
  }

  /** A word is replaced exactly when it is a keyword in any letter case, and
      the replacement is always lower case. */
  lemma ReplacementCases(w: string)
    ensures Replacement(w) != w ==> ToLower(w) in Keywords
    ensures ToLower(w) in Keywords ==> IsLowerCase(Replacement(w))
  {
    KeywordsHaveAlternatives();
  }

  /** The leading interrogative of a question, any case. */
  lemma LeadingWhat(rest: string)
    requires rest == [] || !IsWordChar(rest[0])
    ensures Reworded("What" + rest) == "which" + Reworded(rest)
  {
    var s := "What" + rest;
    WordLengthIs(s, 4);
    assert s[..4] == "What";
    assert ToLower("What") == "what";
    assert s[4..] == rest;
  }

  /** A whole word that is no keyword, in any letter case, is kept. */
  lemma WordKept(w: string)
    requires w != [] && forall i :: 0 <= i < |w| ==> IsWordChar(w[i])
    requires ToLower(w) !in Keywords
    ensures Reworded(w) == w
  {
    WordLengthIs(w, |w|);
    assert w[..|w|] == w;
    assert w[|w|..] == [];
    KeptWord(w);
    MapWordsStep(w, Replacement);
  }

  /** A keyword inside a longer word is not replaced: "somewhat" ends in
      "what" and stays as it is. */
  lemma KeywordInsideWord(s: string)
    requires s == "somewhat"
    ensures s[4..] == Keywords[0] && Reworded(s) == s
  {
    assert ToLower(s) == s;
    WordKept(s);
  }
}
