/**
 The tag scan of `extractTagsFromFile`: the global regular expression
 `/@(\w[\w-]*)/g` applied to a file's text by repeated `exec` calls, each
 capture of group 1 added to a set.

 `Exec` and `ScanFrom` follow the matcher operationally (search forward from
 `lastIndex`, match greedily, resume at the end of the match). `TagAt` states
 declaratively what a match is, and `ExtractTags` is proved to collect exactly
 the tags that `TagAt` admits at some position.
 */
module TagScan {

  datatype Option<T> = None | Some(value: T)

  /** `\w` of a regular expression without the `u` flag: ASCII letters, digits and `_`. */
  predicate IsWordChar(c: char) {
    ('A' <= c <= 'Z') || ('a' <= c <= 'z') || ('0' <= c <= '9') || c == '_'
  }

  /** The character class `[\w-]`. */
  predicate IsTagChar(c: char) {
    IsWordChar(c) || c == '-'
  }

  /** What group 1, `(\w[\w-]*)`, can capture. */
  predicate IsTag(t: string) {
    && |t| > 0
    && IsWordChar(t[0])
    && forall k :: 0 <= k < |t| ==> IsTagChar(t[k])
  }

  /** Declarative reading of one match: an `@` at `p`, followed by the tag `t`,
      which is maximal (greedy `[\w-]*`): the character after it, if any, is
      not in `[\w-]`. */
  predicate TagAt(s: string, p: int, t: string) {
    && 0 <= p
    && p + 1 + |t| <= |s|
    && s[p] == '@'
    && IsTag(t)
    && s[p + 1 .. p + 1 + |t|] == t
    && (p + 1 + |t| == |s| || !IsTagChar(s[p + 1 + |t|]))
  }

  /** `t` is captured at some position of `s`. */
  ghost predicate Occurs(s: string, t: string) {
    exists p :: TagAt(s, p, t)
  }

  /** The pattern can start a match at `p`: an `@` followed by a word character. */
  predicate MatchesAt(s: string, p: int) {
    0 <= p && p + 1 < |s| && s[p] == '@' && IsWordChar(s[p + 1])
  }

  /** End of the maximal run of `[\w-]` characters starting at `i`. */
  function RunEnd(s: string, i: nat): (e: nat)
    requires i <= |s|
    ensures i <= e <= |s|
    ensures forall k :: i <= k < e ==> IsTagChar(s[k])
    ensures e == |s| || !IsTagChar(s[e])
    decreases |s| - i
  {
    if i == |s| || !IsTagChar(s[i]) then i else RunEnd(s, i + 1)
  }

  /** One successful `exec`: the index of the `@`, the capture of group 1, and
      the `lastIndex` the regular expression is left with. */
  datatype Match = Match(index: nat, tag: string, lastIndex: nat)

  /** `tagRegex.exec(content)` with the regular expression's `lastIndex` at
      `lastIndex`: the leftmost match at or after it, or `None` (JavaScript's
      `null`). */
  function Exec(s: string, lastIndex: nat): (r: Option<Match>)
    ensures r.None? ==> forall p :: lastIndex <= p ==> !MatchesAt(s, p)
    ensures r.Some? ==>
              && lastIndex <= r.value.index
              && TagAt(s, r.value.index, r.value.tag)
              && r.value.lastIndex == r.value.index + 1 + |r.value.tag|
              && forall p :: lastIndex <= p < r.value.index ==> !MatchesAt(s, p)
    decreases |s| - lastIndex
  {
    if |s| <= lastIndex + 1 then
      // no room left for an `@` and a word character
      None
    else if MatchesAt(s, lastIndex) then
      var e := RunEnd(s, lastIndex + 1);
      Some(Match(lastIndex, s[lastIndex + 1 .. e], e))
    else
      Exec(s, lastIndex + 1)
  }

  /** The `while ((match = tagRegex.exec(content)) !== null)` loop, from a
      given `lastIndex` on: the set of every capture it adds. */
  function ScanFrom(s: string, lastIndex: nat): (tags: set<string>)
    ensures forall t :: t in tags ==> IsTag(t)
    decreases |s| - lastIndex
  {
    match Exec(s, lastIndex)
    case None => {}
    case Some(m) => {m.tag} + ScanFrom(s, m.lastIndex)
  }

  /** `extractTagsFromFile` on the file's content: exactly the tags that occur
      after an `@` somewhere in it, each maximal. */
  function ExtractTags(content: string): (tags: set<string>)
    ensures forall t :: t in tags ==> IsTag(t)
    ensures forall t :: t in tags <==> Occurs(content, t)
  {
    forall t ensures t in ScanFrom(content, 0) <==> Occurs(content, t) {
      ScanFromSpec(content, 0, t);
    }
    ScanFrom(content, 0)
  }

  /** Every declarative match is a place the pattern can start. */
  lemma TagAtMatches(s: string, p: int, t: string)
    ensures TagAt(s, p, t) ==> MatchesAt(s, p)
  {
    if TagAt(s, p, t) {
      assert s[p + 1] == t[0];
    }
  }

  /** The end of a maximal run is determined by its start. */
  lemma {:induction false} RunEndUnique(s: string, i: nat, e: nat)
    requires i <= e <= |s|
    requires forall k :: i <= k < e ==> IsTagChar(s[k])
    requires e == |s| || !IsTagChar(s[e])
    ensures e == RunEnd(s, i)
    decreases e - i
  {
    if i < e {
      RunEndUnique(s, i + 1, e);
    }
  }

  /** At most one tag is captured at a given `@`. */
  lemma TagAtUnique(s: string, p: int, t1: string, t2: string)
    requires TagAt(s, p, t1) && TagAt(s, p, t2)
    ensures t1 == t2
  {
    forall k | p + 1 <= k < p + 1 + |t1| ensures IsTagChar(s[k]) {
      assert s[k] == t1[k - p - 1];
    }
    forall k | p + 1 <= k < p + 1 + |t2| ensures IsTagChar(s[k]) {
      assert s[k] == t2[k - p - 1];
    }
    RunEndUnique(s, p + 1, p + 1 + |t1|);
    RunEndUnique(s, p + 1, p + 1 + |t2|);
  }

  /** The scan from `lastIndex` collects exactly the tags at positions at or
      after `lastIndex`. Matches never overlap a later `@`, because `[\w-]`
      excludes `@`, so resuming at the end of each match skips nothing. */
  lemma {:induction false} ScanFromSpec(s: string, lastIndex: nat, t: string)
    ensures t in ScanFrom(s, lastIndex) <==> exists p :: lastIndex <= p && TagAt(s, p, t)
    decreases |s| - lastIndex
  {
    match Exec(s, lastIndex)
    case None =>
      forall p | lastIndex <= p ensures !TagAt(s, p, t) {
        TagAtMatches(s, p, t);
      }
    case Some(m) =>
      ScanFromSpec(s, m.lastIndex, t);
      forall k | m.index < k < m.lastIndex ensures s[k] != '@' {
        assert s[k] == m.tag[k - m.index - 1];
      }
      if exists p :: lastIndex <= p && TagAt(s, p, t) {
        var p :| lastIndex <= p && TagAt(s, p, t);
        TagAtMatches(s, p, t);
        if p == m.index {
          TagAtUnique(s, p, t, m.tag);
        } else {
          assert m.lastIndex <= p;
        }
      }
  }

  /** The `@` at `p` yields a tag exactly when a word character follows it; an
      `@` followed by `-`, a space or the end of the text yields nothing. */
  lemma TagAtIffMatches(s: string, p: int)
    ensures (exists t :: TagAt(s, p, t)) <==> MatchesAt(s, p)
  {
    if MatchesAt(s, p) {
      var e := RunEnd(s, p + 1);
      assert TagAt(s, p, s[p + 1 .. e]);
    }
    forall t ensures TagAt(s, p, t) ==> MatchesAt(s, p) {
      TagAtMatches(s, p, t);
    }
  }

  /** Whether a tag sits at a position depends only on the text from that
      position on: text in front of it changes nothing. */
  lemma TagAtShift(a: string, b: string, q: int, t: string)
    requires 0 <= q
    ensures TagAt(b, q, t) <==> TagAt(a + b, |a| + q, t)
  {
    var s := a + b;
    if q + 1 + |t| <= |b| {
      assert s[|a| + q] == b[q];
      assert s[|a| + q + 1 .. |a| + q + 1 + |t|] == b[q + 1 .. q + 1 + |t|];
      if q + 1 + |t| < |b| {
        assert s[|a| + q + 1 + |t|] == b[q + 1 + |t|];
      }
    }
  }

  /** A tag that ends strictly inside `a`, followed by a character of `a`, is
      unaffected by text appended after `a`. */
  lemma TagAtPrefix(a: string, b: string, p: int, t: string)
    requires p + 1 + |t| < |a|
    ensures TagAt(a, p, t) <==> TagAt(a + b, p, t)
  {
    var s := a + b;
    if 0 <= p {
      assert s[p] == a[p];
      assert s[p + 1 .. p + 1 + |t|] == a[p + 1 .. p + 1 + |t|];
      assert s[p + 1 + |t|] == a[p + 1 + |t|];
    }
  }

  /** Scanning more text in front never loses a tag. */
  lemma ExtractTagsKeepsSuffixTags(a: string, b: string)
    ensures ExtractTags(b) <= ExtractTags(a + b)
  {
    forall t | t in ExtractTags(b) ensures t in ExtractTags(a + b) {
      var q :| TagAt(b, q, t);
      TagAtShift(a, b, q, t);
    }
  }

  /** Scanning more text behind never loses a complete tag of `a`, one not
      running up to the very end of `a`; a tag that does could be extended by
      the appended text (see `BoundaryTagCanGrow`). */
  lemma ExtractTagsKeepsCompleteTags(a: string, b: string, p: int, t: string)
    requires TagAt(a, p, t) && p + 1 + |t| < |a|
    ensures t in ExtractTags(a + b)
  {
    TagAtPrefix(a, b, p, t);
  }

  /** A tag at the end of the text is not kept when the text grows: `@ab`
      carries the tag `ab`, `@abc` does not. */
  lemma BoundaryTagCanGrow()
    ensures "ab" in ExtractTags("@ab")
    ensures "ab" !in ExtractTags("@abc")
  {
    assert TagAt("@ab", 0, "ab");
    forall p ensures !TagAt("@abc", p, "ab") {
      if 0 <= p && p + 3 <= 4 && "@abc"[p] == '@' {
        assert p == 0;
        assert "@abc"[3] == 'c';
      }
    }
  }

  /** A text in which the only `@` starts it, followed by a well-formed tag,
      yields exactly that tag. */
  lemma {:induction false} SingleTag(t: string)
    requires IsTag(t)
    ensures ExtractTags(['@'] + t) == {t}
  {
    var s := ['@'] + t;
    assert s[1 .. 1 + |t|] == t;
    assert TagAt(s, 0, t);
    forall u | u in ExtractTags(s) ensures u == t {
      var p :| TagAt(s, p, u);
      if 0 < p {
        assert s[p] == t[p - 1];
      }
      TagAtUnique(s, 0, t, u);
    }
  }

  /** Text without an `@` in front of the scanned text contributes nothing and
      hides nothing. */
  lemma NoAtPrefix(a: string, b: string)
    requires forall k :: 0 <= k < |a| ==> a[k] != '@'
    ensures ExtractTags(a + b) == ExtractTags(b)
  {
    ExtractTagsKeepsSuffixTags(a, b);
    forall t | t in ExtractTags(a + b) ensures t in ExtractTags(b) {
      var p :| TagAt(a + b, p, t);
      assert (a + b)[p] == '@';
      assert |a| <= p;
      TagAtShift(a, b, p - |a|, t);
    }
  }

  /** Two texts joined by a character that is neither `@` nor in `[\w-]`
      (a space, a newline, a `.`) yield the union of their tags. */
  lemma ExtractTagsSeparated(a: string, c: char, b: string)
    requires c != '@' && !IsTagChar(c)
    ensures ExtractTags(a + [c] + b) == ExtractTags(a) + ExtractTags(b)
  {
    var s := a + [c] + b;
    forall t ensures t in ExtractTags(s) <==> t in ExtractTags(a) || t in ExtractTags(b) {
      if p :| TagAt(s, p, t) {
        if p < |a| {
          SeparatedLeft(a, c, b, p, t);
        } else if p > |a| {
          TagAtShift(a + [c], b, p - |a| - 1, t);
        }
      }
      if p :| TagAt(a, p, t) {
        SeparatedLeft(a, c, b, p, t);
      }
      if q :| TagAt(b, q, t) {
        TagAtShift(a + [c], b, q, t);
      }
    }
  }

  /** Left half of `ExtractTagsSeparated`: a tag starting in `a` is a tag of
      `a` alone, since the run cannot cross the separator. */
  lemma SeparatedLeft(a: string, c: char, b: string, p: int, t: string)
    requires c != '@' && !IsTagChar(c)
    requires 0 <= p < |a|
    ensures TagAt(a + [c] + b, p, t) <==> TagAt(a, p, t)
  {
    var s := a + [c] + b;
    assert s[|a|] == c;
    if TagAt(s, p, t) {
      forall k | p + 1 <= k < p + 1 + |t| ensures IsTagChar(s[k]) {
        assert s[k] == t[k - p - 1];
      }
      assert p + 1 + |t| <= |a|;
      if p + 1 + |t| < |a| {
        TagAtPrefix(a, [c] + b, p, t);
        assert s == a + ([c] + b);
      } else {
        assert a[p + 1 .. p + 1 + |t|] == s[p + 1 .. p + 1 + |t|];
      }
    }
    if TagAt(a, p, t) {
      if p + 1 + |t| < |a| {
        TagAtPrefix(a, [c] + b, p, t);
        assert s == a + ([c] + b);
      } else {
        assert a[p + 1 .. p + 1 + |t|] == s[p + 1 .. p + 1 + |t|];
      }
    }
  }

  /** The per-file result is a set: the order of separated pieces does not
      matter ... */
  lemma ExtractTagsOrderIrrelevant(a: string, c: char, b: string)
    requires c != '@' && !IsTagChar(c)
    ensures ExtractTags(a + [c] + b) == ExtractTags(b + [c] + a)
  {
    ExtractTagsSeparated(a, c, b);
    ExtractTagsSeparated(b, c, a);
  }

  /** ... and repeating a piece adds nothing. */
  lemma ExtractTagsRepeatCollapses(a: string, c: char)
    requires c != '@' && !IsTagChar(c)
    ensures ExtractTags(a + [c] + a) == ExtractTags(a)
  {
    ExtractTagsSeparated(a, c, a);
  }

  /** A line `@x @y @x` yields each of its two tags once. */
  lemma RepeatedTagLine(x: string, y: string)
    requires IsTag(x) && IsTag(y)
    ensures ExtractTags(['@'] + x + [' '] + (['@'] + y + [' '] + (['@'] + x))) == {x, y}
  {
    SingleTag(x);
    SingleTag(y);
    ExtractTagsSeparated(['@'] + y, ' ', ['@'] + x);
    ExtractTagsSeparated(['@'] + x, ' ', ['@'] + y + [' '] + (['@'] + x));
  }

  lemma RepeatedTagsExample()
    ensures ExtractTags("@smoke @login @smoke") == {"smoke", "login"}
  {
    RepeatedTagLine("smoke", "login");
    assert "@smoke @login @smoke" == ['@'] + "smoke" + [' '] + (['@'] + "login" + [' '] + (['@'] + "smoke"));
  }

  /** The scan does not know about e-mail addresses: in `local@domain.top`
      the domain label after the `@` is taken as a tag. */
  lemma EmailAddressYieldsTag(local: string, domain: string, top: string)
    requires forall k :: 0 <= k < |local| ==> local[k] != '@'
    requires forall k :: 0 <= k < |top| ==> top[k] != '@'
    requires IsTag(domain)
    ensures ExtractTags(local + (['@'] + domain) + ['.'] + top) == {domain}
  {
    SingleTag(domain);
    NoAtPrefix(local, ['@'] + domain);
    NoAtPrefix(top, []);
    assert top + [] == top;
    assert ExtractTags([]) == {};
    ExtractTagsSeparated(local + (['@'] + domain), '.', top);
  }

  lemma EmailAddressExample()
    ensures ExtractTags("user@example.com") == {"example"}
  {
    EmailAddressYieldsTag("user", "example", "com");
    assert "user@example.com" == "user" + (['@'] + "example") + ['.'] + "com";
  }
}
