/**
  RemoveHTMLTags (processor/processor.go): the replacement of every leftmost
  match of the pattern `<[^>]*>` by the empty string, written as a direct
  scanner over the characters of the input.
 */
module Html {

  /** The index of the first occurrence of `c` in `s`. */
  function IndexOf(s: string, c: char): (i: nat)
    requires c in s
    ensures i < |s| && s[i] == c
    ensures forall j :: 0 <= j < i ==> s[j] != c
  {
    if s[0] == c then 0 else 1 + IndexOf(s[1..], c)
  }

  lemma IndexOfUnique(s: string, c: char, i: nat)
    requires i < |s| && s[i] == c
    requires forall j :: 0 <= j < i ==> s[j] != c
    ensures IndexOf(s, c) == i
  {
  }

  /** No `<` in `s` is followed, anywhere later, by a `>`: nothing in `s` matches `<[^>]*>`. */
  predicate TagFree(s: string)
  {
    forall i, j :: 0 <= i < j < |s| && s[i] == '<' ==> s[j] != '>'
  }

  /** `t` is exactly one match of `<[^>]*>`: a `<`, then no `>`, then a `>`. */
  predicate IsTag(t: string)
  {
    |t| >= 2 && t[0] == '<' && t[|t| - 1] == '>' && forall i :: 0 < i < |t| - 1 ==> t[i] != '>'
  }

  /**
    Scans left to right. A `<` that has a `>` somewhere after it starts a match
    running through the first such `>`, and the whole match is dropped; every
    other character is kept.
   */
  function RemoveHTMLTags(s: string): (r: string)
    ensures |r| <= |s|
    ensures multiset(r) <= multiset(s)
    decreases |s|
  {
    if s == [] then []
    else if s[0] == '<' && '>' in s[1..] then
      var j := 1 + IndexOf(s[1..], '>');
      assert s == s[..j + 1] + s[j + 1..];
      RemoveHTMLTags(s[j + 1..])
    else
      assert s == [s[0]] + s[1..];
      [s[0]] + RemoveHTMLTags(s[1..])
  }

  /** A tag at the front of the input is deleted whole. */
  lemma RemoveHTMLTagsDropsTag(t: string, rest: string)
    requires IsTag(t)
    ensures RemoveHTMLTags(t + rest) == RemoveHTMLTags(rest)
  {
    var s := t + rest;
    var k := |t| - 2;
    assert s[1..][k] == '>';
    forall j | 0 <= j < k ensures s[1..][j] != '>' {
      assert s[1..][j] == t[j + 1];
    }
    IndexOfUnique(s[1..], '>', k);
    assert s[k + 2..] == rest;
  }

  /**
    Leftmost-match decomposition: a prefix without `<` is kept as it is, and
    the tag that follows it is deleted whole, whatever comes after it.
   */
  lemma {:induction false} RemoveHTMLTagsSpan(c: string, t: string, rest: string)
    requires '<' !in c && IsTag(t)
    ensures RemoveHTMLTags(c + t + rest) == c + RemoveHTMLTags(rest)
  {
    if c == [] {
      assert c + t + rest == t + rest;
      RemoveHTMLTagsDropsTag(t, rest);
    } else {
      var s := c + t + rest;
      assert s[1..] == c[1..] + t + rest;
      RemoveHTMLTagsKeepsChar(s);
      RemoveHTMLTagsSpan(c[1..], t, rest);
      assert c == [c[0]] + c[1..];
    }
  }

  /** A first character other than `<` is kept. */
  lemma RemoveHTMLTagsKeepsChar(s: string)
    requires s != [] && s[0] != '<'
    ensures RemoveHTMLTags(s) == [s[0]] + RemoveHTMLTags(s[1..])
  {
  }

  /** A string that contains no match is returned unchanged. */
  lemma {:induction false} RemoveHTMLTagsKeepsTagFree(s: string)
    requires TagFree(s)
    ensures RemoveHTMLTags(s) == s
    decreases |s|
  {
    if s != [] {
      if s[0] == '<' {
        forall j | 0 <= j < |s[1..]| ensures s[1..][j] != '>' {
          assert s[1..][j] == s[j + 1];
        }
        assert '>' !in s[1..];
      }
      assert TagFree(s[1..]) by {
        forall i, j | 0 <= i < j < |s[1..]| && s[1..][i] == '<'
          ensures s[1..][j] != '>'
        {
          assert s[i + 1] == '<';
        }
      }
      RemoveHTMLTagsKeepsTagFree(s[1..]);
      assert s == [s[0]] + s[1..];
    }
  }

  /** In particular, a string with no `<` at all is returned unchanged. */
  lemma RemoveHTMLTagsWithoutLt(s: string)
    requires '<' !in s
    ensures RemoveHTMLTags(s) == s
  {
    assert forall i :: 0 <= i < |s| ==> s[i] != '<';
    RemoveHTMLTagsKeepsTagFree(s);
  }

  /** The output holds no `<` that has a `>` anywhere after it. */
  lemma {:induction false} RemoveHTMLTagsIsTagFree(s: string)
    ensures TagFree(RemoveHTMLTags(s))
    decreases |s|
  {
    if s != [] {
      if s[0] == '<' && '>' in s[1..] {
        var j := 1 + IndexOf(s[1..], '>');
        RemoveHTMLTagsIsTagFree(s[j + 1..]);
      } else {
        var tail := RemoveHTMLTags(s[1..]);
        RemoveHTMLTagsIsTagFree(s[1..]);
        var r := [s[0]] + tail;
        assert RemoveHTMLTags(s) == r;
        if s[0] == '<' {
          // no `>` after this `<` in the input, hence none in the output either
          assert '>' !in multiset(s[1..]);
          assert '>' !in multiset(tail);
          forall j | 0 < j < |r| ensures r[j] != '>' {
            assert r[j] == tail[j - 1];
          }
        }
        forall i, j | 0 < i < j < |r| && r[i] == '<' ensures r[j] != '>' {
          assert tail[i - 1] == '<' && r[j] == tail[j - 1];
        }
      }
    }
  }

  /** A string is left unchanged exactly when it contains no match. */
  lemma RemoveHTMLTagsFixedPointIff(s: string)
    ensures RemoveHTMLTags(s) == s <==> TagFree(s)
  {
    RemoveHTMLTagsIsTagFree(s);
    if TagFree(s) {
      RemoveHTMLTagsKeepsTagFree(s);
    }
  }

  /** Applying RemoveHTMLTags twice gives the same result as applying it once. */
  lemma RemoveHTMLTagsIdempotent(s: string)
    ensures RemoveHTMLTags(RemoveHTMLTags(s)) == RemoveHTMLTags(s)
  {
    RemoveHTMLTagsIsTagFree(s);
    RemoveHTMLTagsKeepsTagFree(RemoveHTMLTags(s));
  }
}
