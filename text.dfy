/**
 * String helpers shared by both test suites: the JavaScript whitespace class,
 * `trim`, the whitespace-collapsing `norm`, substring search, ASCII lower-casing
 * and the Sinhala block U+0D80..U+0DFF.
 */
module Text {

  /** The characters ECMAScript's `\s` and `String.prototype.trim` treat as white space. */
  predicate IsWhitespace(c: char)
  {
    c == ' ' || c == '\t' || c == '\n' || c == '\r' || c == '\U{B}' || c == '\U{C}'
    || c == '\U{A0}' || c == '\U{1680}' || ('\U{2000}' <= c <= '\U{200A}')
    || c == '\U{2028}' || c == '\U{2029}' || c == '\U{202F}' || c == '\U{205F}'
    || c == '\U{3000}' || c == '\U{FEFF}'
  }

  predicate AllWhitespace(s: string)
  {
    forall k :: 0 <= k < |s| ==> IsWhitespace(s[k])
  }

  /** No white space at either end. */
  predicate IsTrimmed(s: string)
  {
    s == [] || (!IsWhitespace(s[0]) && !IsWhitespace(s[|s| - 1]))
  }

  /** Every white-space character is a plain space and is not followed by more white space. */
  predicate Collapsed(s: string)
  {
    forall i :: 0 <= i < |s| && IsWhitespace(s[i]) ==>
      s[i] == ' ' && (i + 1 < |s| ==> !IsWhitespace(s[i + 1]))
  }

  /** The shape of every result of `norm`. */
  predicate Normalized(s: string)
  {
    Collapsed(s) && IsTrimmed(s)
  }

  /** Drops the leading white space. */
  function TrimStart(s: string): (r: string)
    ensures |r| <= |s|
    ensures r != [] ==> !IsWhitespace(r[0])
    ensures s != [] && IsWhitespace(s[0]) ==> |r| < |s|
    decreases |s|
  {
    if s != [] && IsWhitespace(s[0]) then TrimStart(s[1..]) else s
  }

  /** What `TrimStart` drops is white space, and what it keeps is the rest of the string. */
  lemma {:induction false} TrimStartIsSuffix(s: string)
    ensures var r := TrimStart(s);
      r == s[|s| - |r|..] && forall k :: 0 <= k < |s| - |r| ==> IsWhitespace(s[k])
    decreases |s|
  {
    if s != [] && IsWhitespace(s[0]) {
      TrimStartIsSuffix(s[1..]);
      var r := TrimStart(s[1..]);
      assert s[1..][|s| - 1 - |r|..] == s[|s| - |r|..];
      assert forall k :: 1 <= k < |s| - |r| ==> s[k] == s[1..][k - 1];
    }
  }

  /** Drops the trailing white space. */
  function TrimEnd(s: string): (r: string)
    ensures |r| <= |s|
    ensures r != [] ==> !IsWhitespace(r[|r| - 1]) && r[0] == s[0]
    decreases |s|
  {
    if s != [] && IsWhitespace(s[|s| - 1]) then TrimEnd(s[..|s| - 1]) else s
  }

  /** What `TrimEnd` drops is white space, and what it keeps is the start of the string. */
  lemma {:induction false} TrimEndIsPrefix(s: string)
    ensures var r := TrimEnd(s);
      r == s[..|r|] && forall k :: |r| <= k < |s| ==> IsWhitespace(s[k])
    decreases |s|
  {
    if s != [] && IsWhitespace(s[|s| - 1]) {
      TrimEndIsPrefix(s[..|s| - 1]);
      var r := TrimEnd(s[..|s| - 1]);
      assert s[..|s| - 1][..|r|] == s[..|r|];
      assert forall k :: |r| <= k < |s| - 1 ==> s[k] == s[..|s| - 1][k];
    }
  }

  /** `String.prototype.trim`. */
  function Trim(s: string): string
    decreases |s|
  {
    if s != [] && IsWhitespace(s[0]) then Trim(s[1..]) else TrimEnd(s)
  }

  /** The result of `trim` has no white space at either end, and a trimmed string is left alone. */
  lemma {:induction false} TrimIsTrimmed(s: string)
    ensures IsTrimmed(Trim(s))
    ensures IsTrimmed(s) ==> Trim(s) == s
    decreases |s|
  {
    if s != [] && IsWhitespace(s[0]) {
      TrimIsTrimmed(s[1..]);
    }
  }

  /** `trim` is the two one-sided trims in turn. */
  lemma {:induction false} TrimIsBothEnds(s: string)
    ensures Trim(s) == TrimEnd(TrimStart(s))
    decreases |s|
  {
    if s != [] && IsWhitespace(s[0]) {
      TrimIsBothEnds(s[1..]);
    }
  }

  /** Trimming leaves nothing exactly when the string is all white space. */
  lemma TrimEmptyIff(s: string)
    ensures Trim(s) == [] <==> AllWhitespace(s)
  {
    TrimIsBothEnds(s);
    var t := TrimStart(s);
    TrimStartIsSuffix(s);
    TrimEndIsPrefix(t);
  }

  /** Every maximal run of white space becomes one space. */
  function Collapse(s: string): string
    decreases |s|
  {
    if s == [] then []
    else if IsWhitespace(s[0]) then [' '] + Collapse(TrimStart(s))
    else [s[0]] + Collapse(s[1..])
  }

  /**
   * The shape of a collapsed text: only single spaces as white space, empty
   * exactly when the text is, and starting with white space exactly when the text does.
   */
  lemma {:induction false} CollapseShape(s: string)
    ensures Collapsed(Collapse(s))
    ensures Collapse(s) == [] <==> s == []
    ensures (Collapse(s) != [] && IsWhitespace(Collapse(s)[0])) <==> (s != [] && IsWhitespace(s[0]))
    decreases |s|
  {
    if s != [] {
      var rest := if IsWhitespace(s[0]) then TrimStart(s) else s[1..];
      CollapseShape(rest);
      var r := Collapse(s);
      assert r == [if IsWhitespace(s[0]) then ' ' else s[0]] + Collapse(rest);
      forall i | 0 <= i < |r| && IsWhitespace(r[i])
        ensures r[i] == ' ' && (i + 1 < |r| ==> !IsWhitespace(r[i + 1]))
      {
        if i > 0 {
          assert r[i] == Collapse(rest)[i - 1];
          if i + 1 < |r| { assert r[i + 1] == Collapse(rest)[i]; }
        } else if i + 1 < |r| {
          assert r[1] == Collapse(rest)[0];
        }
      }
    }
  }

  lemma CollapsedSlice(s: string, i: nat, j: nat)
    requires Collapsed(s) && i <= j <= |s|
    ensures Collapsed(s[i..j])
  {
    var t := s[i..j];
    forall k | 0 <= k < |t| && IsWhitespace(t[k])
      ensures t[k] == ' ' && (k + 1 < |t| ==> !IsWhitespace(t[k + 1]))
    {
      assert t[k] == s[i + k];
      if k + 1 < |t| { assert t[k + 1] == s[i + k + 1]; }
    }
  }

  /** `norm(s)`: white space collapsed to single spaces, then trimmed. */
  function Norm(s: string): (r: string)
    ensures Normalized(r)
  {
    var c := Collapse(s);
    var t := TrimStart(c);
    CollapseShape(s);
    TrimStartIsSuffix(c);
    TrimEndIsPrefix(t);
    CollapsedSlice(c, |c| - |t|, |c|);
    CollapsedSlice(t, 0, |TrimEnd(t)|);
    TrimIsBothEnds(c);
    Trim(c)
  }

  /** The characters of `s` that are not white space, in order. */
  function NonWhitespace(s: string): (r: string)
    ensures |r| <= |s|
  {
    if s == [] then []
    else (if IsWhitespace(s[0]) then [] else [s[0]]) + NonWhitespace(s[1..])
  }

  lemma {:induction false} NonWhitespaceConcat(a: string, b: string)
    ensures NonWhitespace(a + b) == NonWhitespace(a) + NonWhitespace(b)
  {
    if a == [] {
      assert a + b == b;
    } else {
      assert (a + b)[1..] == a[1..] + b;
      NonWhitespaceConcat(a[1..], b);
    }
  }

  lemma {:induction false} NonWhitespaceEmpty(s: string)
    ensures NonWhitespace(s) == [] <==> AllWhitespace(s)
  {
    if s != [] {
      NonWhitespaceEmpty(s[1..]);
      assert AllWhitespace(s) <==> IsWhitespace(s[0]) && AllWhitespace(s[1..]) by {
        if IsWhitespace(s[0]) && AllWhitespace(s[1..]) {
          forall k | 0 <= k < |s| ensures IsWhitespace(s[k]) {
            if k > 0 { assert s[k] == s[1..][k - 1]; }
          }
        }
      }
    }
  }

  lemma TrimStartNonWhitespace(s: string)
    ensures NonWhitespace(TrimStart(s)) == NonWhitespace(s)
  {
    var t := TrimStart(s);
    var n := |s| - |t|;
    TrimStartIsSuffix(s);
    assert s == s[..n] + t;
    NonWhitespaceConcat(s[..n], t);
    NonWhitespaceEmpty(s[..n]);
  }

  lemma TrimEndNonWhitespace(s: string)
    ensures NonWhitespace(TrimEnd(s)) == NonWhitespace(s)
  {
    var t := TrimEnd(s);
    TrimEndIsPrefix(s);
    assert s == t + s[|t|..];
    NonWhitespaceConcat(t, s[|t|..]);
    NonWhitespaceEmpty(s[|t|..]);
  }

  lemma {:induction false} CollapseNonWhitespace(s: string)
    ensures NonWhitespace(Collapse(s)) == NonWhitespace(s)
    decreases |s|
  {
    if s == [] {
    } else if IsWhitespace(s[0]) {
      var t := TrimStart(s);
      CollapseNonWhitespace(t);
      NonWhitespaceConcat([' '], Collapse(t));
      TrimStartNonWhitespace(s);
    } else {
      CollapseNonWhitespace(s[1..]);
      NonWhitespaceConcat([s[0]], Collapse(s[1..]));
    }
  }

  /** `norm` keeps every character that is not white space, in order, and adds none. */
  lemma NormKeepsNonWhitespace(s: string)
    ensures NonWhitespace(Norm(s)) == NonWhitespace(s)
  {
    var c := Collapse(s);
    TrimIsBothEnds(c);
    CollapseNonWhitespace(s);
    TrimStartNonWhitespace(c);
    TrimEndNonWhitespace(TrimStart(c));
  }

  /** `norm(s)` is empty exactly when `s` holds only white space (or nothing). */
  lemma NormEmptyIff(s: string)
    ensures Norm(s) == [] <==> AllWhitespace(s)
  {
    NormKeepsNonWhitespace(s);
    NonWhitespaceEmpty(s);
    NonWhitespaceEmpty(Norm(s));
  }

  lemma TrimStartAtNonWhitespace(s: string)
    requires s == [] || !IsWhitespace(s[0])
    ensures TrimStart(s) == s
  {
  }

  lemma {:induction false} CollapseFixesCollapsed(s: string)
    requires Collapsed(s)
    ensures Collapse(s) == s
    decreases |s|
  {
    if s != [] {
      var tail := s[1..];
      CollapsedSlice(s, 1, |s|);
      CollapseFixesCollapsed(tail);
      if IsWhitespace(s[0]) {
        assert s[0] == ' ';
        assert tail == [] || tail[0] == s[1];
        TrimStartAtNonWhitespace(tail);
        assert TrimStart(s) == tail;
        assert Collapse(s) == [' '] + Collapse(tail);
      } else {
        assert Collapse(s) == [s[0]] + Collapse(tail);
      }
      assert s == [s[0]] + tail;
    }
  }

  /** `norm` leaves an already normalised string unchanged, so it is idempotent. */
  lemma NormFixesNormalized(s: string)
    requires Normalized(s)
    ensures Norm(s) == s
  {
    CollapseFixesCollapsed(s);
  }

  lemma NormIdempotent(s: string)
    ensures Norm(Norm(s)) == Norm(s)
  {
    NormFixesNormalized(Norm(s));
  }

  /** The string is non-empty and its last character is not white space. */
  predicate EndsInWord(s: string)
  {
    s != [] && !IsWhitespace(s[|s| - 1])
  }

  /** The string is non-empty and its first character is not white space. */
  predicate StartsWithWord(s: string)
  {
    s != [] && !IsWhitespace(s[0])
  }

  /** Leading white space is dropped from the front part only, when that part ends in a word. */
  lemma {:induction false} TrimStartAppend(a: string, t: string)
    requires EndsInWord(a)
    ensures TrimStart(a + t) == TrimStart(a) + t
    ensures EndsInWord(TrimStart(a)) && TrimStart(a)[|TrimStart(a)| - 1] == a[|a| - 1]
    decreases |a|
  {
    if IsWhitespace(a[0]) {
      assert (a + t)[1..] == a[1..] + t;
      TrimStartAppend(a[1..], t);
    }
  }

  /** Trailing white space is dropped from the back part only, when that part starts with a word. */
  lemma {:induction false} TrimEndPrepend(u: string, b: string)
    requires StartsWithWord(b)
    ensures TrimEnd(u + b) == u + TrimEnd(b)
    decreases |b|
  {
    if IsWhitespace(b[|b| - 1]) {
      assert (u + b)[..|u + b| - 1] == u + b[..|b| - 1];
      TrimEndPrepend(u, b[..|b| - 1]);
    }
  }

  /** White space in front of a word, or of nothing, is dropped entirely. */
  lemma {:induction false} TrimStartSkipsWhitespace(w: string, b: string)
    requires AllWhitespace(w)
    requires b == [] || !IsWhitespace(b[0])
    ensures TrimStart(w + b) == b
    decreases |w|
  {
    if w != [] {
      assert (w + b)[1..] == w[1..] + b;
      TrimStartSkipsWhitespace(w[1..], b);
    } else {
      assert w + b == b;
    }
  }

  /** A part ending in a word is collapsed on its own. */
  lemma {:induction false} CollapseAppend(a: string, t: string)
    requires EndsInWord(a)
    ensures Collapse(a + t) == Collapse(a) + Collapse(t)
    decreases |a|
  {
    if IsWhitespace(a[0]) {
      var r := TrimStart(a);
      TrimStartAppend(a, t);
      CollapseAppend(r, t);
      CollapseLeadingSpace(a, t, r);
    } else if |a| == 1 {
      CollapseLastWord(a, t);
    } else {
      CollapseAppend(a[1..], t);
      CollapseLeadingWord(a, t);
    }
  }

  /** Collapsing a text that ends in a word keeps that last character. */
  lemma {:induction false} CollapseKeepsLastWord(a: string)
    requires EndsInWord(a)
    ensures EndsInWord(Collapse(a)) && Collapse(a)[|Collapse(a)| - 1] == a[|a| - 1]
    decreases |a|
  {
    if IsWhitespace(a[0]) {
      var r := TrimStart(a);
      TrimStartAppend(a, []);
      assert a + [] == a && r + [] == r;
      CollapseKeepsLastWord(r);
      CollapseLeadingSpace(a, [], r);
    } else if |a| == 1 {
      CollapseLastWord(a, []);
    } else {
      CollapseKeepsLastWord(a[1..]);
      CollapseLeadingWord(a, []);
      assert a + [] == a && a[1..] + [] == a[1..];
    }
  }

  lemma CollapseLeadingSpace(a: string, t: string, r: string)
    requires a != [] && IsWhitespace(a[0]) && r == TrimStart(a)
    requires TrimStart(a + t) == r + t
    ensures Collapse(a + t) == [' '] + Collapse(r + t)
    ensures Collapse(a) == [' '] + Collapse(r)
  {
    assert (a + t)[0] == a[0];
  }

  lemma CollapseLastWord(a: string, t: string)
    requires |a| == 1 && !IsWhitespace(a[0])
    ensures Collapse(a + t) == a + Collapse(t)
    ensures Collapse(a) == a
  {
    assert (a + t)[0] == a[0];
    assert (a + t)[1..] == t;
    assert Collapse(a) == [a[0]] + Collapse([]);
  }

  lemma CollapseLeadingWord(a: string, t: string)
    requires |a| > 1 && !IsWhitespace(a[0])
    ensures Collapse(a + t) == [a[0]] + Collapse(a[1..] + t)
    ensures Collapse(a) == [a[0]] + Collapse(a[1..])
  {
    assert (a + t)[0] == a[0];
    assert (a + t)[1..] == a[1..] + t;
  }

  /**
   * Every run of white space between two words becomes exactly one space:
   * the words on either side are collapsed on their own.
   */
  lemma CollapseSeparatesWords(a: string, w: string, b: string)
    requires EndsInWord(a) && w != [] && AllWhitespace(w) && StartsWithWord(b)
    ensures Collapse(a + w + b) == Collapse(a) + " " + Collapse(b)
  {
    assert a + w + b == a + (w + b);
    CollapseAppend(a, w + b);
    TrimStartSkipsWhitespace(w, b);
    assert Collapse(w + b) == [' '] + Collapse(TrimStart(w + b));
  }

  lemma TrimStartBeforeSpace(x: string, y: string)
    requires EndsInWord(x)
    ensures TrimStart(x + " " + y) == TrimStart(x) + " " + y
    ensures EndsInWord(TrimStart(x))
  {
    assert x + " " + y == x + (" " + y);
    TrimStartAppend(x, " " + y);
    assert TrimStart(x) + (" " + y) == TrimStart(x) + " " + y;
  }

  lemma TrimEndAfterSpace(u: string, y: string)
    requires StartsWithWord(y)
    ensures TrimEnd(u + " " + y) == u + " " + TrimEnd(y)
  {
    TrimEndPrepend(u + " ", y);
  }

  /** Trimming both ends of two words joined by a space trims each word on its outer side only. */
  lemma TrimSeparatesWords(x: string, y: string)
    requires EndsInWord(x) && StartsWithWord(y)
    ensures Trim(x + " " + y) == Trim(x) + " " + Trim(y)
  {
    TrimIsBothEnds(x + " " + y);
    TrimIsBothEnds(x);
    TrimIsBothEnds(y);
    TrimStartBeforeSpace(x, y);
    TrimEndAfterSpace(TrimStart(x), y);
    assert TrimEnd(TrimStart(x)) == TrimStart(x);
    assert TrimStart(y) == y;
  }

  /**
   * `norm` keeps the word spacing: the normalisation of two texts joined by
   * white space is their normalisations joined by one space.
   */
  lemma NormSeparatesWords(a: string, w: string, b: string)
    requires EndsInWord(a) && w != [] && AllWhitespace(w) && StartsWithWord(b)
    ensures Norm(a + w + b) == Norm(a) + " " + Norm(b)
  {
    CollapseSeparatesWords(a, w, b);
    CollapseKeepsLastWord(a);
    CollapseShape(b);
    TrimSeparatesWords(Collapse(a), Collapse(b));
  }

  /** `p` occurs in `t` starting at position `i`. */
  predicate OccursAt(t: string, p: string, i: int)
  {
    0 <= i && i + |p| <= |t| && t[i..i + |p|] == p
  }

  /** Substring search: `p` occurs somewhere in `t`. */
  predicate Contains(t: string, p: string)
  {
    exists i :: 0 <= i <= |t| && OccursAt(t, p, i)
  }

  /** A text contains only patterns no longer than itself. */
  lemma ContainsIsNoShorter(t: string, p: string)
    requires Contains(t, p)
    ensures |p| <= |t|
  {
    var i :| 0 <= i <= |t| && OccursAt(t, p, i);
  }

  lemma ContainsEmpty(t: string)
    ensures Contains(t, "")
  {
    assert OccursAt(t, "", 0);
  }

  lemma ContainsSelf(t: string)
    ensures Contains(t, t)
  {
    assert OccursAt(t, t, 0);
  }

  /** Lower-casing as the model does it: on the ASCII letters only; every other character is left as it is. */
  function LowerChar(c: char): (r: char)
    ensures 'A' <= c <= 'Z' ==> r as int == c as int + 32
    ensures !('A' <= c <= 'Z') ==> r == c
  {
    if 'A' <= c <= 'Z' then (c as int + 32) as char else c
  }

  function Lower(s: string): (r: string)
    ensures |r| == |s| && forall k :: 0 <= k < |s| ==> r[k] == LowerChar(s[k])
  {
    seq(|s|, k requires 0 <= k < |s| => LowerChar(s[k]))
  }

  predicate IsCapital(c: char)
  {
    'A' <= c <= 'Z'
  }

  /** No ASCII capital letter anywhere in `s`. */
  predicate HasNoCapital(s: string)
  {
    forall k :: 0 <= k < |s| ==> !IsCapital(s[k])
  }

  /** Lower-casing leaves no capital behind. */
  lemma LowerHasNoCapital(s: string)
    ensures HasNoCapital(Lower(s))
  {
  }

  /** A string without capitals is its own lower-case form. */
  lemma LowerFixesLowercase(s: string)
    requires HasNoCapital(s)
    ensures Lower(s) == s
  {
  }

  lemma LowerIdempotent(s: string)
    ensures Lower(Lower(s)) == Lower(s)
  {
    LowerHasNoCapital(s);
    LowerFixesLowercase(Lower(s));
  }

  /** Two strings that differ only in the case of ASCII letters have the same lower-case form. */
  lemma LowerIgnoresCase(s: string, t: string)
    requires |s| == |t|
    requires forall k :: 0 <= k < |s| ==> s[k] == t[k] || LowerChar(s[k]) == t[k] || s[k] == LowerChar(t[k])
    ensures Lower(s) == Lower(t)
  {
    forall k | 0 <= k < |s|
      ensures Lower(s)[k] == Lower(t)[k]
    {
      assert LowerChar(LowerChar(s[k])) == LowerChar(s[k]);
      assert LowerChar(LowerChar(t[k])) == LowerChar(t[k]);
    }
  }

  predicate IsSinhala(c: char)
  {
    '\U{0D80}' <= c <= '\U{0DFF}'
  }

  /** Some character of `s` lies in the Sinhala block. */
  predicate HasSinhala(s: string)
  {
    exists i :: 0 <= i < |s| && IsSinhala(s[i])
  }

  /** `countSinhala(s)`: the number of characters of `s` in the Sinhala block. */
  function CountSinhala(s: string): (r: nat)
    ensures r <= |s|
    ensures r == 0 <==> !HasSinhala(s)
  {
    if s == [] then 0
    else
      assert HasSinhala(s) <==> IsSinhala(s[0]) || HasSinhala(s[1..]) by {
        if HasSinhala(s[1..]) {
          var i :| 0 <= i < |s[1..]| && IsSinhala(s[1..][i]);
          assert IsSinhala(s[i + 1]);
        }
        if HasSinhala(s) {
          var i :| 0 <= i < |s| && IsSinhala(s[i]);
          if i > 0 { assert IsSinhala(s[1..][i - 1]); }
        }
      }
      (if IsSinhala(s[0]) then 1 else 0) + CountSinhala(s[1..])
  }

  /** The count is additive over concatenation; with the one-character case this determines it. */
  lemma {:induction false} CountSinhalaConcat(a: string, b: string)
    ensures CountSinhala(a + b) == CountSinhala(a) + CountSinhala(b)
  {
    if a == [] {
      assert a + b == b;
    } else {
      assert (a + b)[1..] == a[1..] + b;
      CountSinhalaConcat(a[1..], b);
    }
  }

  lemma {:induction false} CountSinhalaNonWhitespace(s: string)
    ensures CountSinhala(NonWhitespace(s)) == CountSinhala(s)
  {
    if s != [] {
      CountSinhalaNonWhitespace(s[1..]);
      var head := if IsWhitespace(s[0]) then [] else [s[0]];
      CountSinhalaConcat(head, NonWhitespace(s[1..]));
    }
  }

  /** Normalising a text changes none of its Sinhala characters. */
  lemma NormKeepsSinhala(s: string)
    ensures CountSinhala(Norm(s)) == CountSinhala(s)
  {
    NormKeepsNonWhitespace(s);
    CountSinhalaNonWhitespace(s);
    CountSinhalaNonWhitespace(Norm(s));
  }
}
