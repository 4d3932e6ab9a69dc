/**
 * The text cleaners of the Wikipedia agent (`_extract_text_from_html` and
 * `_clean_html` in tools.py). Each `re.sub` is one left-to-right scan that
 * rewrites non-overlapping matches; `str.replace` and `str.strip` are
 * modelled in the same style.
 */
module TextCleaning {

  // ------------------------------------------------------------------
  // Character classes
  // ------------------------------------------------------------------

  /** Python's `\s` on str patterns, which is also what `str.strip()` removes:
      the characters for which `str.isspace()` holds. */
  predicate IsSpace(c: char) {
    var n := c as int;
    n == 0x20 || 0x09 <= n <= 0x0D || 0x1C <= n <= 0x1F || n == 0x85 || n == 0xA0
    || n == 0x1680 || 0x2000 <= n <= 0x200A || n == 0x2028 || n == 0x2029
    || n == 0x202F || n == 0x205F || n == 0x3000
  }

  /** Python's `\d`, restricted to the ASCII digits. */
  predicate IsDigit(c: char) {
    '0' <= c <= '9'
  }

  // ------------------------------------------------------------------
  // Subsequences and the visible (non-whitespace) characters of a text
  // ------------------------------------------------------------------

  /** `t` is obtained from `s` by deleting characters: what is kept keeps its order. */
  predicate Subseq(t: string, s: string)
    decreases |s|
  {
    |t| == 0 || (|s| > 0 && ((t[0] == s[0] && Subseq(t[1..], s[1..])) || Subseq(t, s[1..])))
  }

  lemma SubseqConsRight(t: string, c: char, s: string)
    requires Subseq(t, s)
    ensures Subseq(t, [c] + s)
  {
    assert ([c] + s)[1..] == s;
  }

  lemma SubseqConsBoth(c: char, t: string, s: string)
    requires Subseq(t, s)
    ensures Subseq([c] + t, [c] + s)
  {
    assert ([c] + t)[1..] == t;
    assert ([c] + s)[1..] == s;
  }

  lemma {:induction false} SubseqDrop(t: string, s: string, n: nat)
    requires n <= |s| && Subseq(t, s[n..])
    ensures Subseq(t, s)
    decreases n
  {
    if n > 0 {
      assert s[1..][n - 1..] == s[n..];
      SubseqDrop(t, s[1..], n - 1);
    }
  }

  lemma {:induction false} SubseqMember(t: string, s: string, c: char)
    requires Subseq(t, s) && c in t
    ensures c in s
    decreases |s|
  {
    if t[0] == s[0] && Subseq(t[1..], s[1..]) {
      if c != t[0] {
        var i :| 0 <= i < |t| && t[i] == c;
        assert t[1..][i - 1] == c;
        SubseqMember(t[1..], s[1..], c);
      }
    } else {
      SubseqMember(t, s[1..], c);
    }
  }

  lemma {:induction false} SubseqTrans(a: string, b: string, c: string)
    requires Subseq(a, b) && Subseq(b, c)
    ensures Subseq(a, c)
    decreases |c|
  {
    if |a| > 0 {
      if b[0] == c[0] && Subseq(b[1..], c[1..]) {
        if a[0] == b[0] && Subseq(a[1..], b[1..]) {
          SubseqTrans(a[1..], b[1..], c[1..]);
        } else {
          SubseqTrans(a, b[1..], c[1..]);
        }
      } else {
        SubseqTrans(a, b, c[1..]);
      }
    }
  }

  /** The characters of `s` that are not whitespace, in order. */
  function Visible(s: string): string
    decreases |s|
  {
    if |s| == 0 then "" else (if IsSpace(s[0]) then "" else [s[0]]) + Visible(s[1..])
  }

  lemma {:induction false} VisibleConcat(x: string, y: string)
    ensures Visible(x + y) == Visible(x) + Visible(y)
    decreases |x|
  {
    if |x| > 0 {
      assert (x + y)[1..] == x[1..] + y;
      VisibleConcat(x[1..], y);
    } else {
      assert x + y == y;
    }
  }

  lemma {:induction false} VisibleOfBlank(s: string)
    requires forall i :: 0 <= i < |s| ==> IsSpace(s[i])
    ensures Visible(s) == ""
    decreases |s|
  {
    if |s| > 0 {
      VisibleOfBlank(s[1..]);
    }
  }

  lemma {:induction false} VisibleSkip(s: string, n: nat)
    requires n <= |s| && forall i :: 0 <= i < n ==> IsSpace(s[i])
    ensures Visible(s) == Visible(s[n..])
    decreases n
  {
    if n > 0 {
      assert s[1..][n - 1..] == s[n..];
      VisibleSkip(s[1..], n - 1);
    }
  }

  /** Deleting characters keeps the visible characters a subsequence too. */
  lemma {:induction false} SubseqVisible(a: string, b: string)
    requires Subseq(a, b)
    ensures Subseq(Visible(a), Visible(b))
    decreases |b|
  {
    if |a| == 0 {
      assert Visible(a) == "";
    } else if a[0] == b[0] && Subseq(a[1..], b[1..]) {
      SubseqVisible(a[1..], b[1..]);
      if !IsSpace(a[0]) {
        SubseqConsBoth(a[0], Visible(a[1..]), Visible(b[1..]));
      } else {
        assert Visible(a) == Visible(a[1..]) && Visible(b) == Visible(b[1..]);
      }
    } else {
      SubseqVisible(a, b[1..]);
      if !IsSpace(b[0]) {
        SubseqConsRight(Visible(a), b[0], Visible(b[1..]));
      } else {
        assert Visible(b) == Visible(b[1..]);
      }
    }
  }

  /** Every whitespace character of `s` is a plain space ' '. */
  predicate PlainSpaces(s: string) {
    forall i :: 0 <= i < |s| && IsSpace(s[i]) ==> s[i] == ' '
  }

  lemma SubseqPlainSpaces(t: string, s: string)
    requires Subseq(t, s) && PlainSpaces(s)
    ensures PlainSpaces(t)
  {
    forall i | 0 <= i < |t| && IsSpace(t[i])
      ensures t[i] == ' '
    {
      SubseqMember(t, s, t[i]);
    }
  }

  // ------------------------------------------------------------------
  // The two deleted patterns: `<[^>]+>` and `\[\d+\]`
  // ------------------------------------------------------------------

  /** Position of the first `c` in `s`; |s| when there is none. */
  function IndexOf(s: string, c: char): (k: nat)
    ensures k <= |s| && (k < |s| ==> s[k] == c)
    ensures forall i :: 0 <= i < k ==> s[i] != c
    decreases |s|
  {
    if |s| == 0 || s[0] == c then 0 else 1 + IndexOf(s[1..], c)
  }

  /** Length of the match of `<[^>]+>` at the head of `s`; 0 when it does not match there.
      `[^>]+` is greedy and cannot backtrack onto a `>`, so the match, if any,
      ends at the first `>` after the `<` and needs at least one character between. */
  function TagAt(s: string): (n: nat)
    ensures n > 0 ==> 3 <= n <= |s| && s[0] == '<' && s[n - 1] == '>'
    ensures n > 0 ==> forall i :: 1 <= i < n - 1 ==> s[i] != '>'
    ensures n == 0 && 0 < |s| && s[0] == '<' ==>
              (1 < |s| && s[1] == '>') || (forall i :: 1 <= i < |s| ==> s[i] != '>')
  {
    if |s| > 0 && s[0] == '<' then
      var k := IndexOf(s[1..], '>');
      if 0 < k < |s| - 1 then k + 2 else 0
    else
      0
  }

  /** The regular expression matches exactly the span TagAt reports. */
  lemma TagAtComplete(s: string, m: nat)
    requires 3 <= m <= |s| && s[0] == '<' && s[m - 1] == '>'
    requires forall i :: 1 <= i < m - 1 ==> s[i] != '>'
    ensures TagAt(s) == m
  {
    assert s[1..][m - 2] == '>';
  }

  /** Number of digits at the head of `s`. */
  function DigitRun(s: string): (n: nat)
    ensures n <= |s| && (forall i :: 0 <= i < n ==> IsDigit(s[i])) && (n < |s| ==> !IsDigit(s[n]))
    decreases |s|
  {
    if |s| > 0 && IsDigit(s[0]) then 1 + DigitRun(s[1..]) else 0
  }

  /** Length of the match of `\[\d+\]` at the head of `s`; 0 when it does not match there. */
  function ReferenceAt(s: string): (n: nat)
    ensures n > 0 ==> 3 <= n <= |s| && s[0] == '[' && s[n - 1] == ']'
    ensures n > 0 ==> forall i :: 1 <= i < n - 1 ==> IsDigit(s[i])
  {
    if |s| > 0 && s[0] == '[' then
      var d := DigitRun(s[1..]);
      if 0 < d && d + 1 < |s| && s[d + 1] == ']' then d + 2 else 0
    else
      0
  }

  /** The regular expression matches exactly the span ReferenceAt reports. */
  lemma ReferenceAtComplete(s: string, m: nat)
    requires 3 <= m <= |s| && s[0] == '[' && s[m - 1] == ']'
    requires forall i :: 1 <= i < m - 1 ==> IsDigit(s[i])
    ensures ReferenceAt(s) == m
  {
    var d := DigitRun(s[1..]);
    assert forall i :: 0 <= i < m - 2 ==> IsDigit(s[1..][i]);
    assert s[1..][m - 2] == ']';
  }

  /** The two patterns the cleaners delete. */
  datatype Pattern = Tag | Reference

  function MatchAt(p: Pattern, s: string): (n: nat)
    ensures n == 0 || 3 <= n <= |s|
  {
    match p
    case Tag => TagAt(s)
    case Reference => ReferenceAt(s)
  }

  /** `re.sub(p, '', s)`: one left-to-right pass deleting non-overlapping matches. */
  function Delete(p: Pattern, s: string): (r: string)
    ensures |r| <= |s|
    decreases |s|
  {
    if |s| == 0 then ""
    else if MatchAt(p, s) > 0 then Delete(p, s[MatchAt(p, s)..])
    else [s[0]] + Delete(p, s[1..])
  }

  /** No position of `s` starts a match of `p`. */
  predicate MatchFree(p: Pattern, s: string)
    decreases |s|
  {
    |s| == 0 || (MatchAt(p, s) == 0 && MatchFree(p, s[1..]))
  }

  /** A deletion pass keeps the surviving characters in their order. */
  lemma {:induction false} DeleteSubseq(p: Pattern, s: string)
    ensures Subseq(Delete(p, s), s)
    decreases |s|
  {
    if |s| > 0 {
      var n := MatchAt(p, s);
      if n > 0 {
        DeleteSubseq(p, s[n..]);
        SubseqDrop(Delete(p, s), s, n);
      } else {
        DeleteSubseq(p, s[1..]);
        SubseqConsBoth(s[0], Delete(p, s[1..]), s[1..]);
        assert [s[0]] + s[1..] == s;
      }
    }
  }

  /** Text without a match is left alone. */
  lemma {:induction false} MatchFreeUnchanged(p: Pattern, s: string)
    requires MatchFree(p, s)
    ensures Delete(p, s) == s
    decreases |s|
  {
    if |s| > 0 {
      MatchFreeUnchanged(p, s[1..]);
    }
  }

  /** `re.sub(r'<[^>]+>', '', s)`: what survives is the input's characters, in order. */
  function StripTags(s: string): (r: string)
    ensures |r| <= |s| && Subseq(r, s)
  {
    DeleteSubseq(Tag, s);
    Delete(Tag, s)
  }

  /** `re.sub(r'\[\d+\]', '', s)`: what survives is the input's characters, in order. */
  function RemoveReferences(s: string): (r: string)
    ensures |r| <= |s| && Subseq(r, s)
  {
    DeleteSubseq(Reference, s);
    Delete(Reference, s)
  }

  /** Tag removal leaves no tag behind: a `<` that survives is either the last `<`
      before the end with no `>` after it, or directly followed by `>`. */
  lemma {:induction false} StripTagsTagFree(s: string)
    ensures MatchFree(Tag, StripTags(s))
    decreases |s|
  {
    if |s| > 0 {
      var n := TagAt(s);
      if n > 0 {
        StripTagsTagFree(s[n..]);
      } else {
        var t := StripTags(s[1..]);
        StripTagsTagFree(s[1..]);
        var r := [s[0]] + t;
        assert r == StripTags(s);
        assert r[1..] == t;
        if s[0] == '<' {
          if 1 < |s| && s[1] == '>' {
            assert TagAt(s[1..]) == 0;
            assert t == [s[1]] + StripTags(s[1..][1..]);
            assert IndexOf(r[1..], '>') == 0;
          } else {
            assert forall i :: 0 <= i < |s[1..]| ==> s[1..][i] != '>';
            DeleteSubseq(Tag, s[1..]);
            if '>' in t {
              SubseqMember(t, s[1..], '>');
            }
            assert IndexOf(r[1..], '>') == |t|;
          }
        }
      }
    }
  }

  /** Tag removal is idempotent, and its fixed points are exactly the tag-free texts. */
  lemma StripTagsIdempotent(s: string)
    ensures StripTags(StripTags(s)) == StripTags(s)
    ensures MatchFree(Tag, s) <==> StripTags(s) == s
  {
    StripTagsTagFree(s);
    MatchFreeUnchanged(Tag, StripTags(s));
    if MatchFree(Tag, s) {
      MatchFreeUnchanged(Tag, s);
    }
  }

  /** The character every match of `p` starts with. */
  function Opener(p: Pattern): char {
    match p
    case Tag => '<'
    case Reference => '['
  }

  /** Text without the opening character of `p` has no match of `p`, so a pass leaves it alone. */
  lemma {:induction false} NoOpenerMatchFree(p: Pattern, s: string)
    requires Opener(p) !in s
    ensures MatchFree(p, s) && Delete(p, s) == s
    decreases |s|
  {
    if |s| > 0 {
      NoOpenerMatchFree(p, s[1..]);
    }
  }

  /** A character that starts no match is kept, and the pass goes on after it. */
  lemma DeleteKeep(p: Pattern, c: char, t: string)
    requires MatchAt(p, [c] + t) == 0
    ensures Delete(p, [c] + t) == [c] + Delete(p, t)
  {
    assert ([c] + t)[1..] == t;
  }

  /** A match at the head is deleted, and the pass goes on after it. */
  lemma DeleteMatch(p: Pattern, s: string, t: string)
    requires |s| > 0 && MatchAt(p, s + t) == |s|
    ensures Delete(p, s + t) == Delete(p, t)
  {
    assert (s + t)[|s|..] == t;
  }

  /** Without a `>` there is no tag: a lone `<` survives tag removal. */
  lemma {:induction false} NoCloserNoTag(s: string)
    requires '>' !in s
    ensures MatchFree(Tag, s) && StripTags(s) == s
    decreases |s|
  {
    if |s| > 0 {
      assert '>' !in s[1..];
      NoCloserNoTag(s[1..]);
    }
  }

  /** `<>` is not a tag, since `[^>]+` needs a character: it survives, and the pass goes on after it. */
  lemma EmptyBracketsSurvive(t: string)
    ensures StripTags(['<', '>'] + t) == ['<', '>'] + StripTags(t)
  {
    var s := ['<', '>'] + t;
    var u := ['>'] + t;
    assert s[0] == '<' && s[1] == '>';
    assert TagAt(s) == 0;
    DeleteKeep(Tag, '<', u);
    assert TagAt(u) == 0;
    DeleteKeep(Tag, '>', t);
    Regroup('<', '>', t);
    Regroup('<', '>', Delete(Tag, t));
  }

  lemma Regroup(a: char, b: char, t: string)
    ensures [a] + ([b] + t) == [a, b] + t
  {
  }

  /** A complete tag is deleted with everything inside it (so `<<b>>` leaves `>`). */
  lemma TagDeleted(x: string, y: string)
    requires |x| > 0 && '>' !in x
    ensures StripTags("<" + x + ">" + y) == StripTags(y)
  {
    var s := "<" + x + ">";
    assert forall i :: 1 <= i < |s| - 1 ==> (s + y)[i] == x[i - 1];
    TagAtComplete(s + y, |s|);
    DeleteMatch(Tag, s, y);
  }

  /** Reference removal is one pass: a marker revealed by deleting an inner one
      survives (`[1[2]]` leaves `[1]`). */
  lemma NestedReferenceSurvives(d: char, e: char)
    requires IsDigit(d) && IsDigit(e)
    ensures RemoveReferences(['[', d, '[', e, ']', ']']) == ['[', d, ']']
    ensures !MatchFree(Reference, ['[', d, ']'])
  {
    var s := ['[', d, '[', e, ']', ']'];
    assert DigitRun(s[1..]) == 1;
    assert ReferenceAt(s) == 0;
    DeleteKeep(Reference, '[', s[1..]);
    assert ['['] + s[1..] == s;
    DeleteKeep(Reference, d, s[2..]);
    assert [d] + s[2..] == s[1..];
    var u := s[2..];
    ReferenceAtComplete(u, 3);
    assert u[..3] + u[3..] == u;
    DeleteMatch(Reference, u[..3], u[3..]);
    assert u[3..] == s[5..];
    NoOpenerMatchFree(Reference, s[5..]);
    ReferenceAtComplete(['[', d, ']'], 3);
  }

  // ------------------------------------------------------------------
  // Whitespace: `re.sub(r'\s+', ' ', s)` and `str.strip()`
  // ------------------------------------------------------------------

  /** Number of whitespace characters at the head of `s`. */
  function SpaceRun(s: string): (n: nat)
    ensures n <= |s| && (forall i :: 0 <= i < n ==> IsSpace(s[i])) && (n < |s| ==> !IsSpace(s[n]))
    decreases |s|
  {
    if |s| > 0 && IsSpace(s[0]) then 1 + SpaceRun(s[1..]) else 0
  }

  /** `re.sub(r'\s+', ' ', s)`: every maximal run of whitespace becomes one space. */
  function CollapseWhitespace(s: string): (r: string)
    ensures |r| <= |s|
    decreases |s|
  {
    if |s| == 0 then ""
    else if IsSpace(s[0]) then " " + CollapseWhitespace(s[SpaceRun(s)..])
    else [s[0]] + CollapseWhitespace(s[1..])
  }

  /** Every whitespace character is a plain space, and none is followed by whitespace. */
  predicate Collapsed(s: string) {
    forall i :: 0 <= i < |s| && IsSpace(s[i]) ==> s[i] == ' ' && (i + 1 < |s| ==> !IsSpace(s[i + 1]))
  }

  lemma CollapsedCons(c: char, t: string)
    requires Collapsed(t)
    requires IsSpace(c) ==> c == ' ' && (|t| > 0 ==> !IsSpace(t[0]))
    ensures Collapsed([c] + t)
  {
    var r := [c] + t;
    forall i | 0 <= i < |r| && IsSpace(r[i])
      ensures r[i] == ' ' && (i + 1 < |r| ==> !IsSpace(r[i + 1]))
    {
      if i > 0 {
        assert r[i] == t[i - 1];
      }
    }
  }

  lemma CollapsedTail(s: string)
    requires |s| > 0 && Collapsed(s)
    ensures Collapsed(s[1..])
  {
    forall i | 0 <= i < |s[1..]| && IsSpace(s[1..][i])
      ensures s[1..][i] == ' ' && (i + 1 < |s[1..]| ==> !IsSpace(s[1..][i + 1]))
    {
      assert s[1..][i] == s[i + 1];
    }
  }

  /** The output of the collapse pass is collapsed. */
  lemma {:induction false} CollapseWhitespaceCollapsed(s: string)
    ensures Collapsed(CollapseWhitespace(s))
    decreases |s|
  {
    if |s| > 0 {
      if IsSpace(s[0]) {
        var n := SpaceRun(s);
        var t := CollapseWhitespace(s[n..]);
        CollapseWhitespaceCollapsed(s[n..]);
        if n < |s| {
          assert !IsSpace(s[n..][0]);
          assert t == [s[n]] + CollapseWhitespace(s[n..][1..]);
        }
        CollapsedCons(' ', t);
      } else {
        CollapseWhitespaceCollapsed(s[1..]);
        CollapsedCons(s[0], CollapseWhitespace(s[1..]));
      }
    }
  }

  /** Collapsed text is left alone. */
  lemma {:induction false} CollapsedUnchanged(s: string)
    requires Collapsed(s)
    ensures CollapseWhitespace(s) == s
    decreases |s|
  {
    if |s| > 0 {
      CollapsedTail(s);
      CollapsedUnchanged(s[1..]);
      if IsSpace(s[0]) {
        assert |s| > 1 ==> !IsSpace(s[1..][0]);
        assert SpaceRun(s) == 1;
      }
    }
  }

  /** The collapse pass is idempotent, and its fixed points are exactly the collapsed texts. */
  lemma CollapseWhitespaceIdempotent(s: string)
    ensures CollapseWhitespace(CollapseWhitespace(s)) == CollapseWhitespace(s)
    ensures Collapsed(s) <==> CollapseWhitespace(s) == s
  {
    CollapseWhitespaceCollapsed(s);
    CollapsedUnchanged(CollapseWhitespace(s));
    if Collapsed(s) {
      CollapsedUnchanged(s);
    }
  }

  /** Collapsing changes only whitespace: the visible characters are exactly kept. */
  lemma {:induction false} CollapseKeepsVisible(s: string)
    ensures Visible(CollapseWhitespace(s)) == Visible(s)
    decreases |s|
  {
    if |s| > 0 {
      if IsSpace(s[0]) {
        var n := SpaceRun(s);
        CollapseKeepsVisible(s[n..]);
        VisibleSkip(s, n);
        assert (" " + CollapseWhitespace(s[n..]))[1..] == CollapseWhitespace(s[n..]);
      } else {
        CollapseKeepsVisible(s[1..]);
        assert ([s[0]] + CollapseWhitespace(s[1..]))[1..] == CollapseWhitespace(s[1..]);
      }
    }
  }

  /** A whole run of whitespace, of any length and of any kind, becomes exactly one space. */
  lemma CollapseRun(w: string, y: string)
    requires |w| > 0 && forall i :: 0 <= i < |w| ==> IsSpace(w[i])
    requires |y| == 0 || !IsSpace(y[0])
    ensures CollapseWhitespace(w + y) == " " + CollapseWhitespace(y)
  {
    var s := w + y;
    assert forall i :: 0 <= i < |w| ==> s[i] == w[i];
    assert |y| > 0 ==> s[|w|] == y[0];
    assert SpaceRun(s) == |w|;
    assert s[|w|..] == y;
  }

  /** Number of whitespace characters at the end of `s`. */
  function TrailingSpaceRun(s: string): (n: nat)
    ensures n <= |s| && (forall i :: |s| - n <= i < |s| ==> IsSpace(s[i]))
    ensures n < |s| ==> !IsSpace(s[|s| - 1 - n])
    decreases |s|
  {
    if |s| > 0 && IsSpace(s[|s| - 1]) then 1 + TrailingSpaceRun(s[..|s| - 1]) else 0
  }

  /** `str.strip()`: the text between the leading and the trailing whitespace. */
  function Strip(s: string): (r: string)
    ensures |r| == 0 || (!IsSpace(r[0]) && !IsSpace(r[|r| - 1]))
    ensures SpaceRun(s) + |r| <= |s| && r == s[SpaceRun(s)..SpaceRun(s) + |r|]
    ensures forall i :: SpaceRun(s) + |r| <= i < |s| ==> IsSpace(s[i])
  {
    var a := SpaceRun(s);
    if a == |s| then
      ""
    else
      var b := TrailingSpaceRun(s);
      assert b < |s| - a;
      s[a..|s| - b]
  }

  /** A text with no whitespace at either end is left alone. */
  lemma StripUnchanged(s: string)
    requires |s| == 0 || (!IsSpace(s[0]) && !IsSpace(s[|s| - 1]))
    ensures Strip(s) == s
  {
    if |s| > 0 {
      assert SpaceRun(s) == 0;
      assert TrailingSpaceRun(s) == 0;
    }
  }

  /** Stripping is idempotent. */
  lemma StripIdempotent(s: string)
    ensures Strip(Strip(s)) == Strip(s)
  {
    StripUnchanged(Strip(s));
  }

  /** Stripping removes whitespace only, and keeps the rest in order. */
  lemma StripKeepsVisible(s: string)
    ensures Visible(Strip(s)) == Visible(s)
    ensures Subseq(Strip(s), s)
  {
    StripVisible(s);
    StripSubseq(s);
  }

  lemma StripVisible(s: string)
    ensures Visible(Strip(s)) == Visible(s)
  {
    var r := Strip(s);
    var a := SpaceRun(s);
    var x, y := s[..a], s[a + |r|..];
    SliceSplit(s, a, x, r, y);
    VisibleConcat(x + r, y);
    VisibleConcat(x, r);
    VisibleOfBlank(x);
    VisibleOfBlank(y);
  }

  lemma StripSubseq(s: string)
    ensures Subseq(Strip(s), s)
  {
    var r := Strip(s);
    var a := SpaceRun(s);
    var y := s[a + |r|..];
    SubseqOfPrefix(r, y);
    assert s[a..] == r + y;
    SubseqDrop(r, s, a);
  }

  /** A text is its head, a middle slice and its tail. */
  lemma SliceSplit(s: string, a: nat, x: string, r: string, y: string)
    requires a + |r| <= |s| && r == s[a..a + |r|] && x == s[..a] && y == s[a + |r|..]
    ensures s == x + r + y
  {
    assert s[a..] == r + y;
    assert s == x + s[a..];
  }

  lemma {:induction false} SubseqOfPrefix(r: string, rest: string)
    ensures Subseq(r, r + rest)
    decreases |r|
  {
    if |r| > 0 {
      SubseqOfPrefix(r[1..], rest);
      assert (r + rest)[1..] == r[1..] + rest;
    }
  }

  /** `s.strip()` is empty exactly when `s` is all whitespace. */
  lemma StripEmptyIffBlank(s: string)
    ensures Strip(s) == "" <==> forall i :: 0 <= i < |s| ==> IsSpace(s[i])
  {
    var a := SpaceRun(s);
    if forall i :: 0 <= i < |s| ==> IsSpace(s[i]) {
    } else {
      var j :| 0 <= j < |s| && !IsSpace(s[j]);
      assert a <= j;
    }
  }

  // ------------------------------------------------------------------
  // `str.replace` and entity decoding
  // ------------------------------------------------------------------

  /** `pat` occurs somewhere in `s`. */
  predicate Occurs(pat: string, s: string)
    decreases |s|
  {
    pat <= s || (|s| > 0 && Occurs(pat, s[1..]))
  }

  /** `s.replace(pat, rep)`: occurrences are replaced left to right, without overlap. */
  function Replace(s: string, pat: string, rep: string): (r: string)
    requires |pat| > 0
    ensures |rep| <= |pat| ==> |r| <= |s|
    decreases |s|
  {
    if |s| == 0 then ""
    else if pat <= s then rep + Replace(s[|pat|..], pat, rep)
    else [s[0]] + Replace(s[1..], pat, rep)
  }

  /** Text in which `pat` does not occur is left alone. */
  lemma {:induction false} ReplaceAbsent(s: string, pat: string, rep: string)
    requires |pat| > 0 && !Occurs(pat, s)
    ensures Replace(s, pat, rep) == s
    decreases |s|
  {
    if |s| > 0 {
      ReplaceAbsent(s[1..], pat, rep);
    }
  }

  /** An occurrence of `pat` contains the first character of `pat`. */
  lemma {:induction false} OccursHead(pat: string, s: string)
    requires |pat| > 0 && Occurs(pat, s)
    ensures pat[0] in s
    decreases |s|
  {
    if !(pat <= s) {
      OccursHead(pat, s[1..]);
    }
  }

  /** An occurrence at the head is replaced and the scan goes on after it. */
  lemma ReplaceAtHead(pat: string, rest: string, rep: string)
    requires |pat| > 0
    ensures Replace(pat + rest, pat, rep) == rep + Replace(rest, pat, rep)
  {
    assert pat <= pat + rest;
    assert (pat + rest)[|pat|..] == rest;
  }

  /** The entity decoding of `_clean_html`: `&quot;`, `&amp;`, `&lt;`, `&gt;`, in that order. */
  function DecodeEntities(s: string): (r: string)
    ensures |r| <= |s|
  {
    Replace(Replace(Replace(Replace(s, "&quot;", "\""), "&amp;", "&"), "&lt;", "<"), "&gt;", ">")
  }

  lemma NoAmpersandNoEntity(s: string, pat: string)
    requires |pat| > 0 && pat[0] == '&' && '&' !in s
    ensures Replace(s, pat, "\"") == s && Replace(s, pat, "&") == s
    ensures Replace(s, pat, "<") == s && Replace(s, pat, ">") == s
  {
    if Occurs(pat, s) {
      OccursHead(pat, s);
    }
    ReplaceAbsent(s, pat, "\"");
    ReplaceAbsent(s, pat, "&");
    ReplaceAbsent(s, pat, "<");
    ReplaceAbsent(s, pat, ">");
  }

  /** Text without `&` has no entity to decode. */
  lemma DecodeEntitiesNoAmpersand(s: string)
    requires '&' !in s
    ensures DecodeEntities(s) == s
  {
    NoAmpersandNoEntity(s, "&quot;");
    NoAmpersandNoEntity(s, "&amp;");
    NoAmpersandNoEntity(s, "&lt;");
    NoAmpersandNoEntity(s, "&gt;");
  }

  lemma NotPrefix(pat: string, s: string, i: nat)
    requires i < |pat| && i < |s| && pat[i] != s[i]
    ensures !(pat <= s)
  {
  }

  /** Text lacking the first character of `pat` is left alone. */
  lemma ReplaceNoHeadChar(s: string, pat: string, rep: string)
    requires |pat| > 0 && pat[0] !in s
    ensures Replace(s, pat, rep) == s
  {
    if Occurs(pat, s) {
      OccursHead(pat, s);
    }
    ReplaceAbsent(s, pat, rep);
  }

  /** `s` begins with a character that does not start `pat`: that character is kept. */
  lemma ReplaceSkip(c: char, t: string, pat: string, rep: string)
    requires |pat| > 0 && pat[0] != c
    ensures Replace([c] + t, pat, rep) == [c] + Replace(t, pat, rep)
  {
    assert ([c] + t)[1..] == t;
  }

  /** `s` begins with `&` but not with `pat`, and holds no other `&`: it is left alone. */
  lemma ReplaceOneAmpersand(t: string, pat: string, rep: string)
    requires 1 < |pat| && pat[0] == '&' && 0 < |t| && pat[1] != t[0] && '&' !in t
    ensures Replace("&" + t, pat, rep) == "&" + t
  {
    NotPrefix(pat, "&" + t, 1);
    assert ("&" + t)[1..] == t;
    ReplaceNoHeadChar(t, pat, rep);
  }

  /** `&quot;` comes first, so the `&quot;` that `&amp;quot;` decodes to stays. */
  lemma DecodeQuotAfterAmp()
    ensures DecodeEntities("&amp;quot;") == "&quot;"
  {
    QuotAfterAmpFirstSteps();
    QuotAfterAmpLastSteps();
  }

  lemma QuotAfterAmpFirstSteps()
    ensures Replace("&amp;quot;", "&quot;", "\"") == "&amp;quot;"
    ensures Replace("&amp;quot;", "&amp;", "&") == "&quot;"
  {
    ReplaceOneAmpersand("amp;quot;", "&quot;", "\"");
    AmpQuotStep();
  }

  lemma AmpQuotStep()
    ensures Replace("&amp;quot;", "&amp;", "&") == "&quot;"
  {
    DecodeAmpStep("quot;");
    assert "&amp;" + "quot;" == "&amp;quot;";
  }

  lemma QuotAfterAmpLastSteps()
    ensures Replace("&quot;", "&lt;", "<") == "&quot;"
    ensures Replace("&quot;", "&gt;", ">") == "&quot;"
  {
    ReplaceOneAmpersand("quot;", "&lt;", "<");
    ReplaceOneAmpersand("quot;", "&gt;", ">");
    assert "&" + "quot;" == "&quot;";
  }

  lemma DecodeAmpStep(t: string)
    requires '&' !in t
    ensures Replace("&amp;" + t, "&amp;", "&") == "&" + t
  {
    ReplaceAtHead("&amp;", t, "&");
    ReplaceNoHeadChar(t, "&amp;", "&");
  }

  /** `&amp;` is decoded before `&lt;`, so `&amp;lt;` decodes all the way to `<`. */
  lemma DecodeAmpThenLt()
    ensures DecodeEntities("&amp;lt;") == "<"
  {
    AmpLtQuotStep();
    AmpLtAmpStep();
    LtSteps();
  }

  lemma AmpLtQuotStep()
    ensures Replace("&amp;lt;", "&quot;", "\"") == "&amp;lt;"
  {
    ReplaceOneAmpersand("amp;lt;", "&quot;", "\"");
    assert "&" + "amp;lt;" == "&amp;lt;";
  }

  lemma AmpLtAmpStep()
    ensures Replace("&amp;lt;", "&amp;", "&") == "&lt;"
  {
    DecodeAmpStep("lt;");
    assert "&amp;" + "lt;" == "&amp;lt;";
    assert "&" + "lt;" == "&lt;";
  }

  lemma LtSteps()
    ensures Replace("&lt;", "&lt;", "<") == "<"
    ensures Replace("<", "&gt;", ">") == "<"
  {
    ReplaceAtHead("&lt;", "", "<");
    assert "&lt;" + "" == "&lt;";
    ReplaceNoHeadChar("<", "&gt;", ">");
  }

  /** `s` does not start with `pat`: its first character is kept. */
  lemma ReplaceMissHere(s: string, pat: string, rep: string)
    requires |pat| > 0 && |s| > 0 && !(pat <= s)
    ensures Replace(s, pat, rep) == [s[0]] + Replace(s[1..], pat, rep)
  {
  }

  /** No entity starts inside text without `&`. */
  lemma {:induction false} ReplaceAmpFreePrefix(u: string, v: string, pat: string, rep: string)
    requires |pat| > 0 && pat[0] == '&' && '&' !in u
    ensures Replace(u + v, pat, rep) == u + Replace(v, pat, rep)
    decreases |u|
  {
    if |u| > 0 {
      assert u + v == [u[0]] + (u[1..] + v);
      assert u[0] in u;
      ReplaceSkip(u[0], u[1..] + v, pat, rep);
      assert '&' !in u[1..];
      ReplaceAmpFreePrefix(u[1..], v, pat, rep);
      assert [u[0]] + (u[1..] + Replace(v, pat, rep)) == u + Replace(v, pat, rep);
    } else {
      assert u + v == v;
    }
  }

  /** `&gt;` is left alone by the entities that do not start with `&g`. */
  lemma GtMiss(pat: string, rep: string)
    requires 1 < |pat| && pat[0] == '&' && pat[1] != 'g'
    ensures Replace("&gt;", pat, rep) == "&gt;"
  {
    ReplaceOneAmpersand("gt;", pat, rep);
    assert "&" + "gt;" == "&gt;";
  }

  /** `&quot;` and `&amp;` do not occur in escaped markup `&lt;x&gt;`. */
  lemma EscapedMarkupMiss(x: string, pat: string, rep: string)
    requires '&' !in x && 1 < |pat| && pat[0] == '&' && pat[1] != 'l' && pat[1] != 'g'
    ensures Replace("&lt;" + x + "&gt;", pat, rep) == "&lt;" + x + "&gt;"
  {
    var e := "&lt;" + x + "&gt;";
    NotPrefix(pat, e, 1);
    ReplaceMissHere(e, pat, rep);
    assert e[1..] == ("lt;" + x) + "&gt;";
    assert '&' !in "lt;" + x;
    ReplaceAmpFreePrefix("lt;" + x, "&gt;", pat, rep);
    GtMiss(pat, rep);
  }

  /** The `&lt;` pass turns `&lt;x&gt;` into `<x&gt;`. */
  lemma EscapedMarkupLt(x: string)
    requires '&' !in x
    ensures Replace("&lt;" + x + "&gt;", "&lt;", "<") == "<" + x + "&gt;"
  {
    assert "&lt;" + x + "&gt;" == "&lt;" + (x + "&gt;");
    ReplaceAtHead("&lt;", x + "&gt;", "<");
    ReplaceAmpFreePrefix(x, "&gt;", "&lt;", "<");
    GtMiss("&lt;", "<");
  }

  /** The `&gt;` pass turns `<x&gt;` into `<x>`. */
  lemma EscapedMarkupGt(x: string)
    requires '&' !in x
    ensures Replace("<" + x + "&gt;", "&gt;", ">") == "<" + x + ">"
  {
    assert '&' !in "<" + x;
    ReplaceAmpFreePrefix("<" + x, "&gt;", "&gt;", ">");
    ReplaceAtHead("&gt;", "", ">");
    assert "&gt;" + "" == "&gt;";
  }

  /** Escaped markup decodes to markup. */
  lemma DecodeEscapedMarkup(x: string)
    requires '&' !in x
    ensures DecodeEntities("&lt;" + x + "&gt;") == "<" + x + ">"
  {
    EscapedMarkupMiss(x, "&quot;", "\"");
    EscapedMarkupMiss(x, "&amp;", "&");
    EscapedMarkupLt(x);
    EscapedMarkupGt(x);
  }


  // ------------------------------------------------------------------
  // The two cleaners
  // ------------------------------------------------------------------

  /** `_clean_html`: strip tags, decode the four entities, strip whitespace. */
  function CleanHtml(s: string): (r: string)
    ensures |r| <= |s|
    ensures |r| == 0 || (!IsSpace(r[0]) && !IsSpace(r[|r| - 1]))
  {
    Strip(DecodeEntities(StripTags(s)))
  }

  /** Text with neither markup nor entities is only stripped. */
  lemma CleanHtmlPlainText(s: string)
    requires '<' !in s && '&' !in s
    ensures CleanHtml(s) == Strip(s)
  {
    NoOpenerMatchFree(Tag, s);
    DecodeEntitiesNoAmpersand(s);
  }

  /** Decoded `&lt;`/`&gt;` are not stripped again: entity decoding follows tag
      removal, so escaped markup comes out as markup that a tag pass would delete
      (`&lt;b&gt;` gives `<b>`). */
  lemma CleanHtmlDecodedTagsSurvive(x: string)
    requires '&' !in x && '<' !in x && '>' !in x && |x| > 0
    ensures CleanHtml("&lt;" + x + "&gt;") == "<" + x + ">"
    ensures StripTags("<" + x + ">") == ""
  {
    var e := "&lt;" + x + "&gt;";
    assert '<' !in e;
    NoOpenerMatchFree(Tag, e);
    DecodeEscapedMarkup(x);
    StripUnchanged("<" + x + ">");
    TagDeleted(x, "");
    assert "<" + x + ">" + "" == "<" + x + ">";
  }

  /** For text without `&`, the cleaned text keeps the input's characters in order
      and adds none. With `&`, deleting a tag can assemble an entity that is then
      decoded (`&l<b>t;` gives `<`), so no such guarantee holds in general. */
  lemma CleanHtmlKeepsOrder(s: string)
    requires '&' !in s
    ensures Subseq(CleanHtml(s), s)
  {
    var t := StripTags(s);
    if '&' in t {
      SubseqMember(t, s, '&');
    }
    DecodeEntitiesNoAmpersand(t);
    StripSubseq(t);
    SubseqTrans(Strip(t), t, s);
  }

  /** Removing a tag can join the two halves of an entity, which is then decoded:
      `&l<b>t;` gives `<`.  So `_clean_html` does not keep the input's characters
      in order in general. */
  lemma CleanHtmlJoinsEntity(x: string)
    requires |x| > 0 && '>' !in x
    ensures CleanHtml("&l" + ("<" + x + ">" + "t;")) == "<"
  {
    StripTagsJoinsEntity(x);
    DecodeLt();
    StripUnchanged("<");
  }

  lemma StripTagsJoinsEntity(x: string)
    requires |x| > 0 && '>' !in x
    ensures StripTags("&l" + ("<" + x + ">" + "t;")) == "&lt;"
  {
    var rest := "<" + x + ">" + "t;";
    TagDeleted(x, "t;");
    NoOpenerMatchFree(Tag, "t;");
    DeleteKeep(Tag, 'l', rest);
    DeleteKeep(Tag, '&', ['l'] + rest);
    Regroup('&', 'l', rest);
    Regroup('&', 'l', "t;");
    assert ['&', 'l'] + "t;" == "&lt;";
  }

  lemma DecodeLt()
    ensures DecodeEntities("&lt;") == "<"
  {
    assert "&" + "lt;" == "&lt;";
    ReplaceOneAmpersand("lt;", "&quot;", "\"");
    ReplaceOneAmpersand("lt;", "&amp;", "&");
    assert "&lt;" + "" == "&lt;";
    ReplaceAtHead("&lt;", "", "<");
    ReplaceNoHeadChar("<", "&gt;", ">");
  }

  // ------------------------------------------------------------------
  // Tag-freeness survives the later passes of `_extract_text_from_html`
  // ------------------------------------------------------------------

  /** A tag-free text stays tag-free behind a character that starts no tag:
      anything but `<`, or a `<` followed directly by `>` or by no `>` at all. */
  lemma TagFreeCons(c: char, t: string)
    requires MatchFree(Tag, t)
    requires c == '<' ==> (|t| > 0 && t[0] == '>') || '>' !in t
    ensures MatchFree(Tag, [c] + t)
  {
    var s := [c] + t;
    assert s[1..] == t;
    if c == '<' {
      var k := IndexOf(s[1..], '>');
      if |t| > 0 && t[0] == '>' {
        assert k == 0;
      } else {
        assert k == |t|;
      }
    }
  }

  /** In tag-free text a `<` is followed directly by `>` or by no `>` at all. */
  lemma TagFreeHead(s: string)
    requires MatchFree(Tag, s) && |s| > 0 && s[0] == '<'
    ensures (|s| > 1 && s[1] == '>') || '>' !in s[1..]
  {
    assert TagAt(s) == 0;
    if !(|s| > 1 && s[1] == '>') {
      assert forall i :: 0 <= i < |s[1..]| ==> s[1..][i] != '>';
    }
  }

  lemma {:induction false} MatchFreeSuffix(p: Pattern, s: string, k: nat)
    requires MatchFree(p, s) && k <= |s|
    ensures MatchFree(p, s[k..])
    decreases k
  {
    if k > 0 {
      assert s[1..][k - 1..] == s[k..];
      MatchFreeSuffix(p, s[1..], k - 1);
    }
  }

  lemma {:induction false} TagFreePrefix(s: string, k: nat)
    requires MatchFree(Tag, s) && k <= |s|
    ensures MatchFree(Tag, s[..k])
    decreases k
  {
    if k > 0 {
      var t := s[1..][..k - 1];
      TagFreePrefix(s[1..], k - 1);
      assert s[..k] == [s[0]] + t;
      if s[0] == '<' {
        TagFreeHead(s);
        if !(|s| > 1 && s[1] == '>') {
          assert forall j :: 0 <= j < |t| ==> t[j] == s[1..][j];
        }
      }
      TagFreeCons(s[0], t);
    }
  }

  /** Stripping keeps tag-free text tag-free. */
  lemma StripTagFree(s: string)
    requires MatchFree(Tag, s)
    ensures MatchFree(Tag, Strip(s))
  {
    var a := SpaceRun(s);
    var r := Strip(s);
    MatchFreeSuffix(Tag, s, a);
    TagFreePrefix(s[a..], |r|);
    assert s[a..][..|r|] == r;
  }

  /** The collapse adds no character other than the single space. */
  lemma {:induction false} CollapseNoChar(t: string, c: char)
    requires !IsSpace(c) && c !in t
    ensures c !in CollapseWhitespace(t)
    decreases |t|
  {
    if |t| > 0 {
      if IsSpace(t[0]) {
        var n := SpaceRun(t);
        assert c !in t[n..];
        CollapseNoChar(t[n..], c);
      } else {
        assert c !in t[1..];
        CollapseNoChar(t[1..], c);
      }
    }
  }

  /** The collapse keeps tag-free text tag-free. */
  lemma {:induction false} CollapseTagFree(s: string)
    requires MatchFree(Tag, s)
    ensures MatchFree(Tag, CollapseWhitespace(s))
    decreases |s|
  {
    if |s| > 0 {
      if IsSpace(s[0]) {
        var n := SpaceRun(s);
        MatchFreeSuffix(Tag, s, n);
        CollapseTagFree(s[n..]);
        TagFreeCons(' ', CollapseWhitespace(s[n..]));
      } else {
        var t := CollapseWhitespace(s[1..]);
        CollapseTagFree(s[1..]);
        if s[0] == '<' {
          TagFreeHead(s);
          if |s| > 1 && s[1] == '>' {
            assert !IsSpace(s[1..][0]);
            assert t == [s[1]] + CollapseWhitespace(s[1..][1..]);
          } else {
            CollapseNoChar(s[1..], '>');
          }
        }
        TagFreeCons(s[0], t);
      }
    }
  }

  /** Reference removal keeps tag-free text tag-free. */
  lemma {:induction false} RemoveReferencesTagFree(s: string)
    requires MatchFree(Tag, s)
    ensures MatchFree(Tag, Delete(Reference, s))
    decreases |s|
  {
    if |s| > 0 {
      var n := ReferenceAt(s);
      if n > 0 {
        MatchFreeSuffix(Tag, s, n);
        RemoveReferencesTagFree(s[n..]);
      } else {
        var t := Delete(Reference, s[1..]);
        RemoveReferencesTagFree(s[1..]);
        if s[0] == '<' {
          TagFreeHead(s);
          if |s| > 1 && s[1] == '>' {
            assert ReferenceAt(s[1..]) == 0;
            assert t == [s[1]] + Delete(Reference, s[1..][1..]);
          } else {
            DeleteSubseq(Reference, s[1..]);
            if '>' in t {
              SubseqMember(t, s[1..], '>');
            }
          }
        }
        TagFreeCons(s[0], t);
      }
    }
  }

  /** `_extract_text_from_html`: strip tags, collapse whitespace, remove reference markers, strip. */
  function ExtractText(s: string): (r: string)
    ensures |r| <= |s|
    ensures |r| == 0 || (!IsSpace(r[0]) && !IsSpace(r[|r| - 1]))
  {
    Strip(RemoveReferences(CollapseWhitespace(StripTags(s))))
  }

  /** The extracted text keeps the input's visible characters in order (some are
      deleted with tags and markers; none is added), and its only whitespace is ' '. */
  lemma ExtractTextKeepsOrder(s: string)
    ensures Subseq(Visible(ExtractText(s)), Visible(s))
    ensures PlainSpaces(ExtractText(s))
  {
    var t := StripTags(s);
    var c := CollapseWhitespace(t);
    var d := RemoveReferences(c);
    DeleteSubseq(Tag, s);
    SubseqVisible(t, s);
    CollapseKeepsVisible(t);
    DeleteSubseq(Reference, c);
    SubseqVisible(d, c);
    StripKeepsVisible(d);
    SubseqTrans(Visible(d), Visible(c), Visible(s));
    CollapseWhitespaceCollapsed(t);
    SubseqPlainSpaces(d, c);
    SubseqPlainSpaces(Strip(d), d);
  }

  /** No tag survives the extraction: the passes after tag removal never assemble one. */
  lemma ExtractTextTagFree(s: string)
    ensures MatchFree(Tag, ExtractText(s))
  {
    var t := StripTags(s);
    var c := CollapseWhitespace(t);
    StripTagsTagFree(s);
    CollapseTagFree(t);
    RemoveReferencesTagFree(c);
    StripTagFree(RemoveReferences(c));
  }

  /** Text that is already clean is left alone. */
  lemma ExtractTextUnchanged(s: string)
    requires MatchFree(Tag, s) && Collapsed(s) && MatchFree(Reference, s)
    requires |s| == 0 || (!IsSpace(s[0]) && !IsSpace(s[|s| - 1]))
    ensures ExtractText(s) == s
  {
    MatchFreeUnchanged(Tag, s);
    CollapsedUnchanged(s);
    MatchFreeUnchanged(Reference, s);
    StripUnchanged(s);
  }

  /** A character other than whitespace is copied by the collapse. */
  lemma CollapseKeep(c: char, t: string)
    requires !IsSpace(c)
    ensures CollapseWhitespace([c] + t) == [c] + CollapseWhitespace(t)
  {
    assert ([c] + t)[1..] == t;
  }

  /** Removing a reference marker between two spaces leaves a double space. */
  lemma ExtractTextFirstPass(a: char, d: char, b: char)
    requires !IsSpace(a) && !IsSpace(b) && a != '<' && b != '<' && a != '[' && b != '[' && IsDigit(d)
    ensures ExtractText([a, ' ', '[', d, ']', ' ', b]) == [a, ' ', ' ', b]
  {
    var s := [a, ' ', '[', d, ']', ' ', b];
    NoOpenerMatchFree(Tag, s);
    MarkerCollapsed(a, d, b);
    RemoveMarker(a, d, b);
    StripUnchanged([a, ' ', ' ', b]);
  }

  lemma MarkerCollapsed(a: char, d: char, b: char)
    requires !IsSpace(a) && !IsSpace(b) && IsDigit(d)
    ensures CollapseWhitespace([a, ' ', '[', d, ']', ' ', b]) == [a, ' ', '[', d, ']', ' ', b]
  {
    var s := [a, ' ', '[', d, ']', ' ', b];
    assert forall i :: 0 <= i < |s| && IsSpace(s[i]) ==> i == 1 || i == 5;
    CollapsedUnchanged(s);
  }

  lemma RemoveMarker(a: char, d: char, b: char)
    requires a != '[' && b != '[' && IsDigit(d)
    ensures RemoveReferences([a, ' ', '[', d, ']', ' ', b]) == [a, ' ', ' ', b]
  {
    var s := [a, ' ', '[', d, ']', ' ', b];
    DeleteKeep(Reference, a, s[1..]);
    assert [a] + s[1..] == s;
    DeleteKeep(Reference, ' ', s[2..]);
    assert [' '] + s[2..] == s[1..];
    var u := s[2..];
    ReferenceAtComplete(u, 3);
    assert u[..3] + u[3..] == u;
    DeleteMatch(Reference, u[..3], u[3..]);
    assert u[3..] == s[5..];
    NoOpenerMatchFree(Reference, s[5..]);
  }

  /** The double space collapses only on a second pass. */
  lemma ExtractTextSecondPass(a: char, b: char)
    requires !IsSpace(a) && !IsSpace(b) && a != '<' && b != '<' && a != '[' && b != '['
    ensures ExtractText([a, ' ', ' ', b]) == [a, ' ', b]
  {
    var s := [a, ' ', ' ', b];
    NoOpenerMatchFree(Tag, s);
    var w := s[1..];
    assert w[1..] == [' ', b];
    assert w[1..][1..] == [b];
    assert SpaceRun([b]) == 0;
    assert SpaceRun(w) == 2;
    assert w[2..] == [b];
    CollapseKeep(b, []);
    assert [b] + [] == [b];
    assert CollapseWhitespace(s[1..]) == [' ', b];
    CollapseKeep(a, s[1..]);
    assert [a] + s[1..] == s;
    NoOpenerMatchFree(Reference, [a, ' ', b]);
    StripUnchanged([a, ' ', b]);
  }

  /** The whole cleaner is not idempotent: `a [1] b` gives `a  b`, and a second
      pass gives `a b`. */
  lemma ExtractTextNotIdempotent(a: char, d: char, b: char)
    requires !IsSpace(a) && !IsSpace(b) && a != '<' && b != '<' && a != '[' && b != '[' && IsDigit(d)
    ensures ExtractText([a, ' ', '[', d, ']', ' ', b]) == [a, ' ', ' ', b]
    ensures ExtractText(ExtractText([a, ' ', '[', d, ']', ' ', b])) == [a, ' ', b]
  {
    ExtractTextFirstPass(a, d, b);
    ExtractTextSecondPass(a, b);
  }
}
