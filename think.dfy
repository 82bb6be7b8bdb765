/**
  reThink (processor/processor.go): splits a language-model reply into the
  "thinking" trace between `<think>` and `</think>` and the cover letter after
  `</think>`, each trimmed with strings.TrimSpace. The two patterns are
  modelled by their leftmost-match meaning, not by a regular-expression engine.
 */
module Think {
  import opened Wrappers

  const OpenTag: string := "<think>"
  const CloseTag: string := "</think>"
  const ExtractError: string := "Failed to extract cover letter from LLM response"

  /**
    unicode.IsSpace, the predicate strings.TrimSpace trims by: the Latin-1
    spaces and the characters with the Unicode White_Space property.
   */
  predicate IsSpace(c: char)
  {
    || c == '\t' || c == '\n' || c == '\U{0B}' || c == '\U{0C}' || c == '\r' || c == ' '
    || c == '\U{85}' || c == '\U{A0}' || c == '\U{1680}'
    || ('\U{2000}' <= c <= '\U{200A}')
    || c == '\U{2028}' || c == '\U{2029}' || c == '\U{202F}' || c == '\U{205F}' || c == '\U{3000}'
  }

  predicate AllSpace(s: string)
  {
    forall i :: 0 <= i < |s| ==> IsSpace(s[i])
  }

  /** `m` neither starts nor ends with white space. */
  predicate Trimmed(m: string)
  {
    m == [] || (!IsSpace(m[0]) && !IsSpace(m[|m| - 1]))
  }

  function TrimLeft(s: string): (r: string)
    ensures |r| <= |s| && r == s[|s| - |r|..]
    ensures AllSpace(s[..|s| - |r|])
    ensures r == [] || !IsSpace(r[0])
  {
    if s != [] && IsSpace(s[0]) then TrimLeft(s[1..]) else s
  }

  function TrimRight(s: string): (r: string)
    ensures |r| <= |s| && r == s[..|r|]
    ensures AllSpace(s[|r|..])
    ensures r == [] || !IsSpace(r[|r| - 1])
  {
    if s != [] && IsSpace(s[|s| - 1]) then TrimRight(s[..|s| - 1]) else s
  }

  /** strings.TrimSpace: drops the leading and the trailing white space. */
  function TrimSpace(s: string): (r: string)
    ensures Trimmed(r) && |r| <= |s|
  {
    TrimRight(TrimLeft(s))
  }

  /** What TrimSpace removes is white space on either side of its result. */
  lemma TrimSpaceInfix(s: string)
    ensures exists k :: TrimmedAt(s, TrimSpace(s), k)
  {
    var l := TrimLeft(s);
    var r := TrimRight(l);
    var k := |s| - |l|;
    assert s[k..k + |r|] == r;
    assert s[k + |r|..] == l[|r|..];
    assert TrimSpace(s) == r;
    assert TrimmedAt(s, r, k);
  }

  /** `s` is white space, then `m` from index `k` on, then white space. */
  predicate TrimmedAt(s: string, m: string, k: int)
  {
    0 <= k <= |s| - |m| && s[k..k + |m|] == m && AllSpace(s[..k]) && AllSpace(s[k + |m|..])
  }

  lemma {:induction false} TrimLeftOf(a: string, m: string)
    requires AllSpace(a) && (m == [] || !IsSpace(m[0]))
    ensures TrimLeft(a + m) == m
  {
    if a != [] {
      assert (a + m)[1..] == a[1..] + m;
      TrimLeftOf(a[1..], m);
    }
  }

  lemma {:induction false} TrimRightOf(m: string, b: string)
    requires AllSpace(b) && (m == [] || !IsSpace(m[|m| - 1]))
    ensures TrimRight(m + b) == m
  {
    if b != [] {
      var s := m + b;
      assert s[..|s| - 1] == m + b[..|b| - 1];
      TrimRightOf(m, b[..|b| - 1]);
    }
  }

  /**
    TrimSpace returns the one middle part: whenever `s` is white space, then a
    part `m` that neither starts nor ends with white space, then white space,
    the result is `m`.
   */
  lemma TrimSpaceOf(a: string, m: string, b: string)
    requires AllSpace(a) && AllSpace(b) && Trimmed(m)
    ensures TrimSpace(a + m + b) == m
  {
    if m == [] {
      assert a + m + b == (a + b) + [];
      TrimLeftOf(a + b, []);
    } else {
      assert a + m + b == a + (m + b);
      TrimLeftOf(a, m + b);
      TrimRightOf(m, b);
    }
  }

  lemma TrimSpaceIdempotent(s: string)
    ensures TrimSpace(TrimSpace(s)) == TrimSpace(s)
  {
    var m := TrimSpace(s);
    assert [] + m + [] == m;
    TrimSpaceOf([], m, []);
  }

  /** `pat` occurs in `s` at index `i`. */
  predicate Occurs(s: string, pat: string, i: int)
  {
    0 <= i && i + |pat| <= |s| && s[i..i + |pat|] == pat
  }

  /** The first occurrence of `pat` in `s` at or after `from`, if any. */
  function Find(s: string, pat: string, from: nat): (r: Option<nat>)
    ensures r.Some? ==> from <= r.value && Occurs(s, pat, r.value)
    ensures r.Some? ==> forall k :: from <= k < r.value ==> !Occurs(s, pat, k)
    ensures r.None? ==> forall k :: from <= k ==> !Occurs(s, pat, k)
    decreases |s| - from
  {
    if from + |pat| > |s| then None
    else if s[from..from + |pat|] == pat then Some(from)
    else Find(s, pat, from + 1)
  }

  /** `<think>` at `p` and `</think>` at `q` bound a match of `<think>(?s)(.*?)</think>`. */
  predicate ThinkMatch(s: string, p: int, q: int)
  {
    Occurs(s, OpenTag, p) && p + |OpenTag| <= q && Occurs(s, CloseTag, q)
  }

  /**
    The leftmost match of `<think>(?s)(.*?)</think>`: from the first `<think>`
    to the first `</think>` after it (the lazy `(.*?)`), given as the pair of
    the two tags' indices.
   */
  function ThinkSpan(s: string): (r: Option<(nat, nat)>)
    ensures r.Some? ==> ThinkMatch(s, r.value.0, r.value.1)
  {
    var open := Find(s, OpenTag, 0);
    if open.None? then None
    else
      var close := Find(s, CloseTag, open.value + |OpenTag|);
      if close.None? then None else Some((open.value, close.value))
  }

  /**
    reThink. Either pattern failing to match is an error; otherwise the
    capture of the first pattern and the capture of `</think>(?s)(.*)`, which
    runs from the first `</think>` to the end of the input, are trimmed.
   */
  function ReThink(s: string): (r: Result<seq<string>, string>)
    ensures r.Failure? ==> r.error == ExtractError
    ensures r.Success? ==> |r.value| == 2 && ThinkSpan(s).Some? && Find(s, CloseTag, 0).Some?
  {
    var span := ThinkSpan(s);
    var after := Find(s, CloseTag, 0);
    if span.None? || after.None? then Failure(ExtractError)
    else
      var (p, q) := span.value;
      Success([TrimSpace(s[p + |OpenTag|..q]), TrimSpace(s[after.value + |CloseTag|..])])
  }

  /** The span found is the least match: leftmost start, then shortest. */
  lemma ThinkSpanLeast(s: string, p': int, q': int)
    requires ThinkMatch(s, p', q')
    ensures ThinkSpan(s).Some?
    ensures ThinkSpan(s).value.0 < p' || (ThinkSpan(s).value.0 == p' && ThinkSpan(s).value.1 <= q')
  {
    var open := Find(s, OpenTag, 0);
    assert open.Some? && open.value <= p';
    var close := Find(s, CloseTag, open.value + |OpenTag|);
    assert close.Some?;
  }

  /**
    reThink fails exactly when the input holds no `<think>` with a `</think>`
    after it.
   */
  lemma ReThinkFailsIff(s: string)
    ensures ReThink(s).Failure? <==> !exists p, q :: ThinkMatch(s, p, q)
    ensures ReThink(s).Failure? ==> ReThink(s).error == ExtractError
  {
    if p, q :| ThinkMatch(s, p, q) {
      ThinkSpanLeast(s, p, q);
      assert Find(s, CloseTag, 0).Some? by {
        var q0 := ThinkSpan(s).value.1;
        assert Occurs(s, CloseTag, q0);
      }
    } else {
      assert ThinkSpan(s).None?;
    }
  }

  /**
    On success reThink returns two strings. Element 0 is the trimmed text of
    the leftmost, shortest match between `<think>` and `</think>`.
   */
  lemma ReThinkThinking(s: string)
    requires ReThink(s).Success?
    ensures |ReThink(s).value| == 2
    ensures exists p, q ::
      && ThinkMatch(s, p, q)
      && (forall p', q' :: ThinkMatch(s, p', q') ==> p < p' || (p == p' && q <= q'))
      && ReThink(s).value[0] == TrimSpace(s[p + |OpenTag|..q])
  {
    var (p, q) := ThinkSpan(s).value;
    assert ReThink(s).value[0] == TrimSpace(s[p + |OpenTag|..q]);
    forall p', q' | ThinkMatch(s, p', q') ensures p < p' || (p == p' && q <= q') {
      ThinkSpanLeast(s, p', q');
    }
  }

  /**
    On success, element 1 of reThink's result is the trimmed text after the
    first `</think>` anywhere in the input, which may lie before `<think>`.
   */
  lemma ReThinkCoverLetter(s: string)
    requires ReThink(s).Success?
    ensures exists r ::
      && Occurs(s, CloseTag, r)
      && (forall r' :: Occurs(s, CloseTag, r') ==> r <= r')
      && ReThink(s).value[1] == TrimSpace(s[r + |CloseTag|..])
  {
    var r := Find(s, CloseTag, 0).value;
    assert ReThink(s).value[1] == TrimSpace(s[r + |CloseTag|..]);
  }
}
