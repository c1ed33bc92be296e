/**
 Capability grants and requests: the byte-level checks of the code, and the label-level meaning
 that they are proved to have.
 */
module Capability {
  import opened Labels

  const MAX_LENGTH := 255
  const MAX_SEGMENTS := 8
  const SEGMENT_MAX_LENGTH := 63

  /* ----- the grammar, label by label ----- */

  predicate PlainChar(c: char) {
    'a' <= c <= 'z' || '0' <= c <= '9' || c == '_' || c == '-'
  }

  /** A nonempty run of plain characters, or a whole-label wildcard where one is allowed. */
  predicate ValidLabel(l: string, wildcard: bool) {
    l != [] && ((forall i :: 0 <= i < |l| ==> PlainChar(l[i])) || (wildcard && l == "*"))
  }

  predicate ValidLabels(s: string, wildcard: bool) {
    var ls := Split(s, '.');
    forall i :: 0 <= i < |ls| ==> ValidLabel(ls[i], wildcard && i == 0)
  }

  predicate SegmentSpec(s: string, wildcard: bool) {
    |s| <= SEGMENT_MAX_LENGTH && ValidLabels(s, wildcard)
  }

  /** At most 255 characters and 8 segments; the namespace segment is always literal. */
  predicate Grammatical(cap: string, wildcard: bool) {
    var segments := Split(cap, ':');
    && |cap| <= MAX_LENGTH
    && |segments| <= MAX_SEGMENTS
    && forall i :: 0 <= i < |segments| ==> SegmentSpec(segments[i], wildcard && i != 0)
  }

  /* ----- the matching rule, label by label ----- */

  /** "*" matches any segment, "*.s" one or more labels followed by the labels of s, anything else only itself. */
  predicate SegmentMatches(g: string, r: string) {
    var gl, rl := Split(g, '.'), Split(r, '.');
    if gl == ["*"] then true
    else if gl[0] == "*" then |rl| >= |gl| && rl[|rl| - (|gl| - 1)..] == gl[1..]
    else gl == rl
  }

  /** The grant's segments match a prefix of the request's. */
  predicate Covers(grant: string, request: string) {
    var gs, rs := Split(grant, ':'), Split(request, ':');
    && Grammatical(grant, true)
    && Grammatical(request, false)
    && |gs| <= |rs|
    && forall i :: 0 <= i < |gs| ==> SegmentMatches(gs[i], rs[i])
  }

  /* ----- one segment, character by character ----- */

  predicate CapabilityChar(c: char) {
    PlainChar(c) || c == '.' || c == '*'
  }

  /** Legal characters, no empty dot-label so far, and wildcards only as a whole leading label. */
  predicate CharOk(s: string, wildcard: bool, i: nat)
    requires i < |s|
  {
    && CapabilityChar(s[i])
    && (s[i] == '.' && i > 0 ==> s[i - 1] != '.')
    && (s[i] == '*' ==> wildcard && i == 0 && (|s| == 1 || s[1] == '.'))
  }

  predicate CharsOk(s: string, wildcard: bool) {
    && s != []
    && s[0] != '.' && s[|s| - 1] != '.'
    && forall i :: 0 <= i < |s| ==> CharOk(s, wildcard, i)
  }

  lemma OneLabel(s: string, wildcard: bool)
    requires '.' !in s
    ensures CharsOk(s, wildcard) <==> ValidLabel(s, wildcard)
  {
    if s != [] {
      if CharsOk(s, wildcard) {
        if s[0] != '*' {
          forall i | 0 <= i < |s|
            ensures PlainChar(s[i])
          {
            assert CharOk(s, wildcard, i);
          }
        } else {
          assert CharOk(s, wildcard, 0);
        }
      }
      if ValidLabel(s, wildcard) {
        forall i | 0 <= i < |s|
          ensures CharOk(s, wildcard, i)
        {
        }
      }
    }
  }

  /** Characters are fine exactly when they are fine on both sides of the first dot. */
  lemma CharsAtDot(a: string, b: string, wildcard: bool)
    requires '.' !in a
    ensures CharsOk(a + "." + b, wildcard) <==> CharsOk(a, wildcard) && CharsOk(b, false)
  {
    var s := a + "." + b;
    var n := |a|;
    if CharsOk(s, wildcard) {
      assert CharOk(s, wildcard, n);
      assert s[|s| - 1] != '.';
      assert n > 0 && b != [];
      assert CharOk(s, wildcard, n + 1);
      forall i | 0 <= i < n
        ensures CharOk(a, wildcard, i)
      {
        assert CharOk(s, wildcard, i) && s[i] == a[i];
      }
      forall i | 0 <= i < |b|
        ensures CharOk(b, false, i)
      {
        assert CharOk(s, wildcard, n + 1 + i) && s[n + 1 + i] == b[i];
        assert i > 0 ==> s[n + i] == b[i - 1];
      }
    }
    if CharsOk(a, wildcard) && CharsOk(b, false) {
      forall i | 0 <= i < |s|
        ensures CharOk(s, wildcard, i)
      {
        if i < n {
          assert CharOk(a, wildcard, i);
        } else if i > n {
          assert CharOk(b, false, i - n - 1);
          assert b[0] != '.';
        }
      }
      assert s[|s| - 1] == b[|b| - 1];
    }
  }

  lemma LabelsAtDot(a: string, b: string, wildcard: bool)
    requires '.' !in a
    ensures ValidLabels(a + "." + b, wildcard) <==> ValidLabel(a, wildcard) && ValidLabels(b, false)
  {
    SplitAt(a, b, '.');
    SplitWhole(a, '.');
    var ls := Split(a + "." + b, '.');
    var bs := Split(b, '.');
    assert ls == [a] + bs;
    if ValidLabels(a + "." + b, wildcard) {
      assert ValidLabel(ls[0], wildcard);
      forall i | 0 <= i < |bs|
        ensures ValidLabel(bs[i], false)
      {
        assert ValidLabel(ls[i + 1], false) && ls[i + 1] == bs[i];
      }
    }
  }

  lemma FirstDot(s: string) returns (k: nat)
    requires '.' in s
    ensures k < |s| && '.' !in s[..k] && s == s[..k] + "." + s[k + 1..]
  {
    if s[0] == '.' {
      k := 0;
    } else {
      var j := FirstDot(s[1..]);
      k := j + 1;
      assert s[..k] == [s[0]] + s[1..][..j];
    }
  }

  /** The character checks say what the label grammar says. */
  lemma {:induction false} CharsAreLabels(s: string, wildcard: bool)
    ensures CharsOk(s, wildcard) <==> ValidLabels(s, wildcard)
    decreases |s|
  {
    if '.' in s {
      var k := FirstDot(s);
      var a, b := s[..k], s[k + 1..];
      CharsAtDot(a, b, wildcard);
      LabelsAtDot(a, b, wildcard);
      OneLabel(a, wildcard);
      CharsAreLabels(b, false);
    } else {
      SplitWhole(s, '.');
      OneLabel(s, wildcard);
      assert Split(s, '.')[0] == s;
    }
  }

  /** One grammar pass over a segment. */
  method ValidSegment(seg: string, wildcardAllowed: bool) returns (ok: bool)
    ensures ok <==> SegmentSpec(seg, wildcardAllowed)
  {
    CharsAreLabels(seg, wildcardAllowed);
    if seg == [] || |seg| > SEGMENT_MAX_LENGTH {
      return false;
    }
    if seg[0] == '.' || seg[|seg| - 1] == '.' {
      return false;
    }
    var prevDot := false;
    for i := 0 to |seg|
      invariant prevDot <==> i > 0 && seg[i - 1] == '.'
      invariant forall j :: 0 <= j < i ==> CharOk(seg, wildcardAllowed, j)
    {
      var c := seg[i];
      if !CapabilityChar(c) {
        assert !CharOk(seg, wildcardAllowed, i);
        return false;
      }
      if c == '.' {
        if prevDot {
          assert !CharOk(seg, wildcardAllowed, i);
          return false;
        }
        prevDot := true;
      } else {
        prevDot := false;
        if c == '*' {
          if !wildcardAllowed || i != 0 || (|seg| != 1 && seg[1] != '.') {
            assert !CharOk(seg, wildcardAllowed, i);
            return false;
          }
        }
      }
    }
    return true;
  }

  /* ----- splitting ----- */

  datatype SegmentRange = SegmentRange(begin: nat, end: nat)

  /** The first n ranges cut out the first n segments. */
  ghost predicate Ranges(cap: string, out: seq<SegmentRange>, n: nat) {
    && n <= |out| && n <= |Split(cap, ':')|
    && forall i :: 0 <= i < n ==>
         out[i].begin <= out[i].end <= |cap| && cap[out[i].begin..out[i].end] == Split(cap, ':')[i]
  }

  /** Segments found so far, and the text still to split. */
  ghost predicate SplitSoFar(cap: string, begin: nat, i: nat, count: nat) {
    && begin <= i <= |cap|
    && ':' !in cap[begin..i]
    && count + |Split(cap[begin..], ':')| == |Split(cap, ':')|
    && Split(cap, ':')[count..] == Split(cap[begin..], ':')
  }

  lemma CutSegment(cap: string, begin: nat, i: nat, count: nat)
    requires SplitSoFar(cap, begin, i, count) && i < |cap| && cap[i] == ':'
    ensures count + 1 < |Split(cap, ':')| && Split(cap, ':')[count] == cap[begin..i]
    ensures SplitSoFar(cap, i + 1, i + 1, count + 1)
  {
    SplitAt(cap[begin..i], cap[i + 1..], ':');
    SplitWhole(cap[begin..i], ':');
    CutText(cap, begin, i);
    TailOfTail(Split(cap, ':'), count, cap[begin..i], Split(cap[i + 1..], ':'));
  }

  lemma CutText(cap: string, begin: nat, i: nat)
    requires begin <= i < |cap| && cap[i] == ':'
    ensures cap[begin..] == cap[begin..i] + ":" + cap[i + 1..]
  {
  }

  lemma TailOfTail(all: seq<string>, n: nat, head: string, rest: seq<string>)
    requires n <= |all| && all[n..] == [head] + rest
    ensures n + 1 + |rest| == |all| && all[n] == head && all[n + 1..] == rest
  {
    assert all[n..][0] == all[n];
    assert all[n + 1..] == all[n..][1..];
  }

  lemma LastSegment(cap: string, begin: nat, count: nat)
    requires SplitSoFar(cap, begin, |cap|, count)
    ensures count + 1 == |Split(cap, ':')| && Split(cap, ':')[count] == cap[begin..|cap|]
  {
    assert cap[begin..] == cap[begin..|cap|];
    SplitWhole(cap[begin..], ':');
    assert Split(cap, ':')[count..][0] == Split(cap, ':')[count];
  }

  lemma KeepScanning(cap: string, begin: nat, i: nat, count: nat)
    requires SplitSoFar(cap, begin, i, count) && i < |cap| && cap[i] != ':'
    ensures SplitSoFar(cap, begin, i + 1, count)
  {
    assert cap[begin..i + 1] == cap[begin..i] + [cap[i]];
  }

  /** Every segment among the first n is well formed. */
  ghost predicate SegmentsOk(cap: string, wildcard: bool, n: nat) {
    n <= |Split(cap, ':')| && forall j :: 0 <= j < n ==> SegmentSpec(Split(cap, ':')[j], wildcard && j != 0)
  }

  /** The scan has cut off count segments; past the end it has cut off all. */
  ghost predicate Scanned(cap: string, begin: nat, i: nat, count: nat) {
    if i <= |cap| then SplitSoFar(cap, begin, i, count) else count == |Split(cap, ':')|
  }

  lemma SegmentFound(cap: string, begin: nat, i: nat, count: nat)
    requires SplitSoFar(cap, begin, i, count) && (i == |cap| || cap[i] == ':')
    ensures count < |Split(cap, ':')| && Split(cap, ':')[count] == cap[begin..i]
    ensures Scanned(cap, i + 1, i + 1, count + 1)
  {
    if i == |cap| {
      LastSegment(cap, begin, count);
    } else {
      CutSegment(cap, begin, i, count);
    }
  }

  /** Every range and segment among the first n is right. */
  ghost predicate Accepted(cap: string, wildcard: bool, out: seq<SegmentRange>, n: nat) {
    SegmentsOk(cap, wildcard, n) && Ranges(cap, out, n) && n <= MAX_SEGMENTS
  }

  lemma AcceptNext(cap: string, wildcard: bool, out: seq<SegmentRange>, n: nat, begin: nat, end: nat)
    requires |out| == MAX_SEGMENTS && n < MAX_SEGMENTS && Accepted(cap, wildcard, out, n)
    requires n < |Split(cap, ':')| && begin <= end <= |cap| && Split(cap, ':')[n] == cap[begin..end]
    requires SegmentSpec(cap[begin..end], wildcard && n != 0)
    ensures Accepted(cap, wildcard, out[n := SegmentRange(begin, end)], n + 1)
  {
  }

  lemma BadSegment(cap: string, wildcard: bool, n: nat)
    requires n < |Split(cap, ':')| && (n >= MAX_SEGMENTS || !SegmentSpec(Split(cap, ':')[n], wildcard && n != 0))
    ensures !Grammatical(cap, wildcard)
  {
  }

  /** Fills out with one range a segment and returns their number, or 0 on any grammar violation. */
  method SplitValidate(cap: string, out: array<SegmentRange>, wildcardOk: bool) returns (count: nat)
    requires out.Length == MAX_SEGMENTS
    modifies out
    ensures count != 0 <==> Grammatical(cap, wildcardOk)
    ensures count != 0 ==> count == |Split(cap, ':')| && Ranges(cap, out[..], count)
  {
    if cap == [] || |cap| > MAX_LENGTH {
      EmptyIsMalformed(wildcardOk);
      return 0;
    }
    count := 0;
    var begin := 0;
    for i := 0 to |cap| + 1
      invariant Scanned(cap, begin, i, count)
      invariant Accepted(cap, wildcardOk, out[..], count)
    {
      if i != |cap| && cap[i] != ':' {
        KeepScanning(cap, begin, i, count);
      } else {
        SegmentFound(cap, begin, i, count);
        if count == MAX_SEGMENTS {
          BadSegment(cap, wildcardOk, count);
          return 0;
        }
        var ok := ValidSegment(cap[begin..i], wildcardOk && count != 0);
        if !ok {
          BadSegment(cap, wildcardOk, count);
          return 0;
        }
        ghost var before := out[..];
        AcceptNext(cap, wildcardOk, before, count, begin, i);
        out[count] := SegmentRange(begin, i);
        assert out[..] == before[count := SegmentRange(begin, i)];
        count := count + 1;
        begin := i + 1;
      }
    }
  }

  lemma EmptyIsMalformed(wildcard: bool)
    ensures !Grammatical([], wildcard)
  {
    var segments := Split([], ':');
    assert segments == [[]];
    assert Split([], '.') == [[]];
    assert !ValidLabel(Split(segments[0], '.')[0], false);
  }

  /* ----- matching one segment ----- */

  /** The byte test: the request ends with everything after the star, and has more in front. */
  predicate WildcardLabelMatch(pattern: string, request: string)
    requires |pattern| >= 1
  {
    var suffix := pattern[1..];
    |request| >= |suffix| + 1 && request[|request| - |suffix|..] == suffix
  }

  lemma SplitDot(a: string, b: string)
    ensures Split(a + "." + b, '.') == Split(a, '.') + Split(b, '.')
  {
    SplitAt(a, b, '.');
  }

  /** A suffix at a dot boundary is a suffix of labels. */
  lemma SuffixIsLabels(s: string, r: string)
    requires WildcardLabelMatch("*." + s, r)
    ensures var sl, rl := Split(s, '.'), Split(r, '.'); |rl| >= |sl| + 1 && rl[|rl| - |sl|..] == sl
  {
    var front := r[..|r| - |s| - 1];
    assert ("*." + s)[1..] == "." + s;
    assert r == front + "." + s;
    SplitDot(front, s);
    var fl, sl := Split(front, '.'), Split(s, '.');
    assert (fl + sl)[|fl|..] == sl;
  }

  lemma SuffixAtDot(front: string, s: string)
    requires front != []
    ensures WildcardLabelMatch("*." + s, front + "." + s)
  {
    var suffix, r := ("*." + s)[1..], front + "." + s;
    assert suffix == "." + s;
    assert r[|front|..] == suffix;
  }

  /** A suffix of labels is a suffix at a dot boundary. */
  lemma LabelsAreSuffix(s: string, r: string)
    requires var sl, rl := Split(s, '.'), Split(r, '.'); |rl| >= |sl| + 1 && rl[|rl| - |sl|..] == sl
    requires ValidLabels(r, false)
    ensures WildcardLabelMatch("*." + s, r)
  {
    var sl, rl := Split(s, '.'), Split(r, '.');
    var front := rl[..|rl| - |sl|];
    assert rl == front + sl;
    JoinOfSplit(r, '.');
    JoinOfSplit(s, '.');
    JoinOfConcat(front, sl, '.');
    assert ValidLabel(rl[0], false);
    FirstLabelShows(front);
    SuffixAtDot(Join(front, '.'), s);
  }

  lemma FirstLabelShows(parts: seq<string>)
    requires |parts| >= 1 && parts[0] != []
    ensures Join(parts, '.') != []
  {
  }

  /** What the code does with one pair of segments. */
  predicate ByteMatches(g: string, r: string) {
    if g == "*" then true
    else if |g| >= 2 && g[0] == '*' && g[1] == '.' then WildcardLabelMatch(g, r)
    else g == r
  }

  lemma StarSplits()
    ensures Split("*", '.') == ["*"]
  {
    SplitWhole("*", '.');
  }

  lemma SplitInjective(a: string, b: string)
    ensures Split(a, '.') == Split(b, '.') <==> a == b
  {
    JoinOfSplit(a, '.');
    JoinOfSplit(b, '.');
  }

  lemma WildcardParts(g: string) returns (s: string)
    requires |g| >= 2 && g[0] == '*' && g[1] == '.'
    ensures g == "*." + s && Split(g, '.') == ["*"] + Split(s, '.')
  {
    s := g[2..];
    assert g == "*" + "." + s;
    SplitDot("*", s);
    StarSplits();
  }

  lemma LiteralFirstLabel(g: string)
    requires ValidLabels(g, true) && !(g == "*") && !(|g| >= 2 && g[0] == '*' && g[1] == '.')
    ensures Split(g, '.')[0] != "*"
  {
    CharsAreLabels(g, true);
    assert CharOk(g, true, 0);
    StarFirst(g);
  }

  lemma StarFirst(g: string)
    requires g != [] && g[0] != '*'
    ensures Split(g, '.')[0] != "*"
  {
    var first := Split(g, '.')[0];
    assert first == [] || first[0] == g[0];
  }

  lemma WildcardMatchIsSuffix(g: string, r: string)
    requires ValidLabels(g, true) && ValidLabels(r, false) && |g| >= 2 && g[0] == '*' && g[1] == '.'
    ensures WildcardLabelMatch(g, r) <==> SegmentMatches(g, r)
  {
    var s := WildcardParts(g);
    assert (["*"] + Split(s, '.'))[1..] == Split(s, '.');
    if WildcardLabelMatch(g, r) {
      SuffixIsLabels(s, r);
    }
    if SegmentMatches(g, r) {
      LabelsAreSuffix(s, r);
    }
  }

  /** Byte matching of well-formed segments is label matching. */
  lemma ByteMatchIsLabelMatch(g: string, r: string)
    requires ValidLabels(g, true) && ValidLabels(r, false)
    ensures ByteMatches(g, r) <==> SegmentMatches(g, r)
  {
    StarSplits();
    if g == "*" {
    } else if |g| >= 2 && g[0] == '*' && g[1] == '.' {
      WildcardMatchIsSuffix(g, r);
    } else {
      LiteralFirstLabel(g);
      SplitInjective(g, r);
    }
  }

  /* ----- the check ----- */

  /** THE check. Anything malformed on either side is refused. */
  method CapabilityGrantCovers(grant: string, request: string) returns (covers: bool)
    ensures covers <==> Covers(grant, request)
  {
    var gs := new SegmentRange[MAX_SEGMENTS](_ => SegmentRange(0, 0));
    var rs := new SegmentRange[MAX_SEGMENTS](_ => SegmentRange(0, 0));
    var gn := SplitValidate(grant, gs, true);
    var rn := SplitValidate(request, rs, false);
    if gn == 0 || rn == 0 || gn > rn {
      return false;
    }
    ghost var gparts, rparts := Split(grant, ':'), Split(request, ':');
    var granges, rranges := gs[..], rs[..];
    for i := 0 to gn
      invariant forall j :: 0 <= j < i ==> SegmentMatches(gparts[j], rparts[j])
    {
      var g := grant[granges[i].begin..granges[i].end];
      var r := request[rranges[i].begin..rranges[i].end];
      PairMatches(grant, request, i, g, r);
      if g == "*" {
      } else if |g| >= 2 && g[0] == '*' && g[1] == '.' {
        if !WildcardLabelMatch(g, r) {
          return false;
        }
      } else if g != r {
        return false;
      }
    }
    return true;
  }

  lemma PairMatches(grant: string, request: string, i: nat, g: string, r: string)
    requires Grammatical(grant, true) && Grammatical(request, false)
    requires i < |Split(grant, ':')| && g == Split(grant, ':')[i]
    requires i < |Split(request, ':')| && r == Split(request, ':')[i]
    ensures ValidLabels(g, true) && ValidLabels(r, false) && (ByteMatches(g, r) <==> SegmentMatches(g, r))
  {
    SegmentIsValid(grant, true, i);
    SegmentIsValid(request, false, i);
    ByteMatchIsLabelMatch(g, r);
  }

  lemma SegmentIsValid(cap: string, wildcard: bool, i: nat)
    requires Grammatical(cap, wildcard) && i < |Split(cap, ':')|
    ensures ValidLabels(Split(cap, ':')[i], wildcard)
  {
    var seg := Split(cap, ':')[i];
    assert SegmentSpec(seg, wildcard && i != 0);
    forall j | 0 <= j < |Split(seg, '.')|
      ensures ValidLabel(Split(seg, '.')[j], wildcard && j == 0)
    {
    }
  }

  /* ----- the grammar and the wildcard rule in plain text ----- */

  /** Lower-case ASCII letters, digits, underscore and hyphen, and nothing else. */
  lemma PlainAlphabet(c: char)
    ensures PlainChar(c) <==> c in "abcdefghijklm" || c in "nopqrstuvwxyz" || c in "0123456789" || c in "_-"
  {
    LettersToM(c);
    LettersFromN(c);
    Digits(c);
  }

  /** Extending a capability by one literal segment stays legal up to eight segments and 255 characters. */
  lemma ExtendedIsGrammatical(cap: string, seg: string, wildcard: bool)
    requires Grammatical(cap, wildcard) && ':' !in seg && '.' !in seg
    requires forall i :: 0 <= i < |seg| ==> PlainChar(seg[i])
    ensures Grammatical(cap + ":" + seg, wildcard) <==>
            1 <= |seg| <= 63 && |Split(cap, ':')| < 8 && |cap| + 1 + |seg| <= 255
  {
    SplitAt(cap, seg, ':');
    SplitWhole(seg, ':');
    SplitWhole(seg, '.');
    var ss := Split(cap, ':');
    assert Split(cap + ":" + seg, ':') == ss + [seg];
    assert Split(seg, '.')[0] == seg;
    if Grammatical(cap + ":" + seg, wildcard) {
      assert SegmentSpec((ss + [seg])[|ss|], wildcard && |ss| != 0);
    }
    if 1 <= |seg| <= 63 && |ss| < 8 && |cap| + 1 + |seg| <= 255 {
      assert SegmentSpec(seg, wildcard && |ss| != 0);
      assert forall i :: 0 <= i < |ss| ==> (ss + [seg])[i] == ss[i];
    }
  }

  /** "*.s" matches exactly the texts that put something and a dot in front of s. */
  lemma WildcardIsSuffix(s: string, r: string)
    requires ValidLabels("*." + s, true) && ValidLabels(r, false)
    ensures SegmentMatches("*." + s, r) <==> exists front: string :: front != [] && r == front + "." + s
  {
    var g := "*." + s;
    assert g[0] == '*' && g[1] == '.' && g[1..] == "." + s;
    WildcardMatchIsSuffix(g, r);
    if WildcardLabelMatch(g, r) {
      var front := r[..|r| - |s| - 1];
      assert r == front + ("." + s) == front + "." + s;
    }
    if front: string :| front != [] && r == front + "." + s {
      SuffixAtDot(front, s);
    }
  }

  /** "*" matches any segment, and a literal segment only itself. */
  lemma PlainMatches(g: string, r: string)
    requires ValidLabels(r, false)
    ensures SegmentMatches("*", r)
    ensures ValidLabels(g, false) ==> (SegmentMatches(g, r) <==> g == r)
  {
    StarSplits();
    if ValidLabels(g, false) {
      LiteralMatches(g, r);
    }
  }

  /* ----- laws of covering ----- */

  /** A request that is extended by further segments stays covered. */
  lemma CoversExtensions(grant: string, request: string, more: string)
    requires Covers(grant, request) && Grammatical(request + ":" + more, false)
    ensures Covers(grant, request + ":" + more)
  {
    SplitAt(request, more, ':');
  }

  /** A request-shaped name has no wildcards, so as a grant it stands for itself only. */
  lemma LiteralMatches(m: string, r: string)
    requires ValidLabels(m, false)
    ensures SegmentMatches(m, r) <==> m == r
  {
    var first := Split(m, '.')[0];
    assert ValidLabel(first, false);
    assert PlainChar(first[0]);
    SplitInjective(m, r);
  }

  lemma NoWildcardIsGrant(m: string)
    requires Grammatical(m, false)
    ensures Grammatical(m, true)
  {
    var segments := Split(m, ':');
    forall i | 0 <= i < |segments|
      ensures SegmentSpec(segments[i], i != 0)
    {
      WeakerSegment(segments[i], i != 0);
    }
  }

  lemma WeakerSegment(s: string, wildcard: bool)
    requires SegmentSpec(s, false)
    ensures SegmentSpec(s, wildcard)
  {
    var ls := Split(s, '.');
    forall i | 0 <= i < |ls|
      ensures ValidLabel(ls[i], wildcard && i == 0)
    {
      assert ValidLabel(ls[i], false);
    }
  }

  lemma LiteralPrefix(m: string, request: string, i: nat)
    requires Covers(m, request) && Grammatical(m, false) && i < |Split(m, ':')|
    ensures i < |Split(request, ':')| && Split(m, ':')[i] == Split(request, ':')[i]
  {
    SegmentIsValid(m, false, i);
    LiteralMatches(Split(m, ':')[i], Split(request, ':')[i]);
  }

  /** Joining more segments extends the text at a colon. */
  lemma JoinOfExtension(gs: seq<string>, rs: seq<string>)
    requires 0 < |gs| <= |rs| && (forall i :: 0 <= i < |gs| ==> gs[i] == rs[i])
    ensures Join(rs, ':') == Join(gs, ':') || Join(gs, ':') + ":" <= Join(rs, ':')
  {
    assert rs == gs + rs[|gs|..];
    if |rs| > |gs| {
      JoinOfConcat(gs, rs[|gs|..], ':');
    } else {
      assert rs == gs;
    }
  }

  /** Covering is transitive through any wildcard-free middle. */
  lemma CoversTransitive(grant: string, middle: string, request: string)
    requires Covers(grant, middle) && Covers(middle, request)
    ensures Covers(grant, request)
  {
    var gs, rs := Split(grant, ':'), Split(request, ':');
    forall i | 0 <= i < |gs|
      ensures SegmentMatches(gs[i], rs[i])
    {
      LiteralPrefix(middle, request, i);
    }
  }

  /** A wildcard-free grant covers exactly itself and its extensions: byte equality, or a prefix cut at ':'. */
  lemma LiteralGrantIsPrefix(grant: string, request: string)
    requires Grammatical(grant, false) && Grammatical(request, false)
    ensures Covers(grant, request) <==> request == grant || grant + ":" <= request
  {
    var gs, rs := Split(grant, ':'), Split(request, ':');
    NoWildcardIsGrant(grant);
    JoinOfSplit(grant, ':');
    JoinOfSplit(request, ':');
    if Covers(grant, request) {
      forall i | 0 <= i < |gs|
        ensures gs[i] == rs[i]
      {
        LiteralPrefix(grant, request, i);
      }
      JoinOfExtension(gs, rs);
    }
    if grant + ":" <= request {
      SplitAt(grant, request[|grant| + 1..], ':');
      assert request == grant + ":" + request[|grant| + 1..];
    }
    if request == grant || grant + ":" <= request {
      forall i | 0 <= i < |gs|
        ensures i < |rs| && SegmentMatches(gs[i], rs[i])
      {
        SegmentIsValid(grant, false, i);
        LiteralMatches(gs[i], rs[i]);
      }
    }
  }
}
