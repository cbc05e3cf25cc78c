/**
 The string operations the sync engine leans on, restated over `seq<char>`:
 `String.prototype.trim`, the global `*` removal of the rule parser,
 `toLowerCase`, `includes`, and the `split('/').pop()` that derives a
 transaction id from its resource URL.
 */
module Text {

  /** The characters ECMAScript's `trim` removes: WhiteSpace and LineTerminator. */
  predicate IsTrimmable(c: char) {
    || c == '\t' || c == '\n' || c == '\U{0B}' || c == '\U{0C}' || c == '\r'
    || c == ' ' || c == '\U{A0}' || c == '\U{1680}'
    || ('\U{2000}' <= c <= '\U{200A}')
    || c == '\U{2028}' || c == '\U{2029}' || c == '\U{202F}' || c == '\U{205F}'
    || c == '\U{3000}' || c == '\U{FEFF}'
  }

  /** Drops the trimmable characters at the front of `s`. */
  function TrimStart(s: string): string
    decreases |s|
  {
    if |s| > 0 && IsTrimmable(s[0]) then TrimStart(s[1..]) else s
  }

  /** Drops the trimmable characters at the back of `s`. */
  function TrimEnd(s: string): string
    decreases |s|
  {
    if |s| > 0 && IsTrimmable(s[|s| - 1]) then TrimEnd(s[..|s| - 1]) else s
  }

  /** `TrimStart` keeps a suffix of `s` that does not start with a trimmable character, and cuts only trimmable ones. */
  lemma {:induction false} TrimStartSpec(s: string)
    ensures |TrimStart(s)| <= |s| && TrimStart(s) == s[|s| - |TrimStart(s)|..]
    ensures |TrimStart(s)| > 0 ==> !IsTrimmable(TrimStart(s)[0])
    ensures forall i :: 0 <= i < |s| - |TrimStart(s)| ==> IsTrimmable(s[i])
    decreases |s|
  {
    if |s| > 0 && IsTrimmable(s[0]) {
      TrimStartSpec(s[1..]);
    }
  }

  /** `TrimEnd` keeps a prefix of `s` that does not end with a trimmable character, and cuts only trimmable ones. */
  lemma {:induction false} TrimEndSpec(s: string)
    ensures |TrimEnd(s)| <= |s| && TrimEnd(s) == s[..|TrimEnd(s)|]
    ensures |TrimEnd(s)| > 0 ==> !IsTrimmable(TrimEnd(s)[|TrimEnd(s)| - 1])
    ensures forall i :: |TrimEnd(s)| <= i < |s| ==> IsTrimmable(s[i])
    decreases |s|
  {
    if |s| > 0 && IsTrimmable(s[|s| - 1]) {
      TrimEndSpec(s[..|s| - 1]);
    }
  }

  /** `s.trim()`: `s` without its leading and trailing trimmable characters. */
  function Trim(s: string): string {
    TrimEnd(TrimStart(s))
  }

  /**
   What `Trim` keeps is an infix of `s` that neither starts nor ends with a
   trimmable character, and everything it cuts on either side is trimmable.
   */
  lemma TrimSpec(s: string)
    ensures |Trim(s)| == 0 || (!IsTrimmable(Trim(s)[0]) && !IsTrimmable(Trim(s)[|Trim(s)| - 1]))
    ensures exists lead :: 0 <= lead && lead + |Trim(s)| <= |s| && IsTrimmedAt(s, Trim(s), lead)
  {
    var front := TrimStart(s);
    var t := TrimEnd(front);
    TrimStartSpec(s);
    TrimEndSpec(front);
    var lead := |s| - |front|;
    TrimWitness(s, front, t, lead);
    if |t| > 0 {
      assert t[0] == front[0];
    }
  }

  /**
   Cutting `lead` trimmable characters from the front of `s`, then a
   trimmable tail from what is left, leaves `t` trimmed at `lead`.
   */
  lemma TrimWitness(s: string, front: string, t: string, lead: nat)
    requires lead <= |s| && front == s[lead..]
    requires forall i :: 0 <= i < lead ==> IsTrimmable(s[i])
    requires |t| <= |front| && t == front[..|t|]
    requires forall i :: |t| <= i < |front| ==> IsTrimmable(front[i])
    ensures lead + |t| <= |s| && IsTrimmedAt(s, t, lead)
  {
    assert s[lead..lead + |t|] == t;
    forall i | lead + |t| <= i < |s| ensures IsTrimmable(s[i]) {
      assert s[i] == front[i - lead];
    }
  }

  /** `r` is `s` with exactly `lead` trimmable characters cut from the front and only trimmable ones from the back. */
  ghost predicate IsTrimmedAt(s: string, r: string, lead: nat)
    requires lead + |r| <= |s|
  {
    && s[lead..lead + |r|] == r
    && (forall i :: 0 <= i < lead ==> IsTrimmable(s[i]))
    && (forall i :: lead + |r| <= i < |s| ==> IsTrimmable(s[i]))
  }

  /** `s.startsWith(p)`. */
  predicate StartsWith(s: string, p: string) {
    |p| <= |s| && s[..|p|] == p
  }

  /** The global-pattern `replace` of `*` by the empty string: every `*` removed, every other character kept in order. */
  function RemoveStars(s: string): (r: string)
    ensures '*' !in r
    ensures |r| <= |s|
    ensures '*' !in s ==> r == s
    ensures multiset(r) == multiset(s)['*' := 0]
    decreases |s|
  {
    if |s| == 0 then ""
    else
      var rest := RemoveStars(s[1..]);
      assert s == [s[0]] + s[1..];
      if s[0] == '*' then rest
      else
        assert multiset([s[0]] + rest) == multiset([s[0]]) + multiset(rest);
        [s[0]] + rest
  }

  /** Star removal works piecewise: it commutes with concatenation. */
  lemma {:induction false} RemoveStarsAppend(a: string, b: string)
    ensures RemoveStars(a + b) == RemoveStars(a) + RemoveStars(b)
    decreases |a|
  {
    if |a| > 0 {
      var c := a[0];
      var kept := if c == '*' then "" else [c];
      assert a == [c] + a[1..];
      assert a + b == [c] + (a[1..] + b);
      RemoveStarsCons(c, a[1..]);
      RemoveStarsCons(c, a[1..] + b);
      RemoveStarsAppend(a[1..], b);
      assert kept + (RemoveStars(a[1..]) + RemoveStars(b)) == (kept + RemoveStars(a[1..])) + RemoveStars(b);
    } else {
      assert a + b == b;
    }
  }

  /** Star removal on a string with a known first character. */
  lemma RemoveStarsCons(c: char, s: string)
    ensures RemoveStars([c] + s) == (if c == '*' then "" else [c]) + RemoveStars(s)
  {
    assert ([c] + s)[1..] == s;
  }

  /** `toLowerCase` on one character; only the ASCII capitals are mapped. */
  function LowerChar(c: char): (r: char)
    ensures 'A' <= c <= 'Z' ==> r as int == c as int + 32
    ensures !('A' <= c <= 'Z') ==> r == c
  {
    if 'A' <= c <= 'Z' then (c as int + 32) as char else c
  }

  /** `s.toLowerCase()`, character by character. */
  function Lower(s: string): (r: string)
    ensures |r| == |s|
    ensures forall i :: 0 <= i < |s| ==> r[i] == LowerChar(s[i])
    ensures forall i :: 0 <= i < |r| ==> !('A' <= r[i] <= 'Z')
    decreases |s|
  {
    if |s| == 0 then "" else [LowerChar(s[0])] + Lower(s[1..])
  }

  /** `needle` occurs in `hay` starting at position `i`. */
  predicate OccursAt(hay: string, needle: string, i: nat) {
    i + |needle| <= |hay| && hay[i..i + |needle|] == needle
  }

  /** `hay.includes(needle)`: some position of `hay` starts an occurrence of `needle`. */
  function Includes(hay: string, needle: string): (b: bool)
    ensures b <==> exists i: nat :: OccursAt(hay, needle, i)
    ensures |needle| == 0 ==> b
    decreases |hay|
  {
    if StartsWith(hay, needle) then
      assert OccursAt(hay, needle, 0);
      true
    else if |hay| == 0 then
      false
    else
      var rest := Includes(hay[1..], needle);
      assert forall i: nat :: OccursAt(hay[1..], needle, i) <==> OccursAt(hay, needle, i + 1) by {
        forall i: nat ensures OccursAt(hay[1..], needle, i) <==> OccursAt(hay, needle, i + 1) {
          if i + |needle| <= |hay[1..]| {
            assert hay[1..][i..i + |needle|] == hay[i + 1..i + 1 + |needle|];
          }
        }
      }
      if rest then
        var i: nat :| OccursAt(hay[1..], needle, i);
        assert OccursAt(hay, needle, i + 1);
        true
      else
        assert forall i: nat :: !OccursAt(hay, needle, i) by {
          forall i: nat ensures !OccursAt(hay, needle, i) {
            if i > 0 { assert !OccursAt(hay[1..], needle, i - 1); }
          }
        }
        false
  }

  /** `url.split('/').pop()`: the text after the last `/`, or all of `url` when it has none. */
  function LastSegment(url: string): string
    decreases |url|
  {
    if |url| == 0 then ""
    else if url[|url| - 1] == '/' then ""
    else LastSegment(url[..|url| - 1]) + [url[|url| - 1]]
  }

  /**
   The segment holds no `/`, ends `url`, and is either all of `url` or
   preceded by a `/`: it is the text after the last `/`.
   */
  lemma {:induction false} LastSegmentSpec(url: string)
    ensures '/' !in LastSegment(url)
    ensures |LastSegment(url)| <= |url| && url[|url| - |LastSegment(url)|..] == LastSegment(url)
    ensures |LastSegment(url)| == |url| || url[|url| - |LastSegment(url)| - 1] == '/'
    decreases |url|
  {
    if |url| > 0 && url[|url| - 1] != '/' {
      LastSegmentSpec(url[..|url| - 1]);
    }
  }

  /** A URL built as `prefix + "/" + seg` yields `seg` back, whatever the prefix holds. */
  lemma {:induction false} LastSegmentOfPath(prefix: string, seg: string)
    requires '/' !in seg
    ensures LastSegment(prefix + "/" + seg) == seg
  {
    var url := prefix + "/" + seg;
    LastSegmentSpec(url);
    assert url[|url| - |seg| - 1] == '/';
    assert url[|url| - |seg|..] == seg;
  }
}
