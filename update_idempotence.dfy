/** Running `update_terraform_file` (version_restrictor.py:110-134) a second
    time with the same versions changes nothing when the message value does
    not overlap the allow-list call, and an overlapping file where the second
    run fails. */
module UpdateIdempotence {
  import opened Text
  import opened Outcomes
  import opened TerraformUpdate
  import VersionOrder
  import Render

  /** The search returns the leftmost match. */
  lemma FindAllowListOf(t: string, p: nat, q: nat)
    requires FirstAllowListMatch(t, p, q)
    ensures FindAllowList(t) == Some(Span(p + |OPEN|, q))
  {
    var s := FindAllowList(t).value;
    var p2 := s.lo - |OPEN|;
    assert FirstAllowListMatch(t, p2, s.hi);
  }

  /** Two message matches at the same start are the same match. */
  lemma MessageMatchSame(t: string, m: nat, eq: nat, lo: nat, hi: nat, eq': nat, lo': nat, hi': nat)
    requires MessageMatch(t, m, eq, lo, hi) && MessageMatch(t, m, eq', lo', hi')
    ensures eq == eq' && lo == lo' && hi == hi'
  {
    MessageMatchDetermined(t, m, eq, lo, hi);
    MessageMatchDetermined(t, m, eq', lo', hi');
  }

  lemma FindMessageOf(t: string, m: nat, eq: nat, lo: nat, hi: nat)
    requires FirstMessageMatch(t, m, eq, lo, hi)
    ensures FindMessage(t) == Some(MessageSpan(m, eq, lo, hi))
  {
    assert MessageMatch(t, m, eq, lo, hi);
    var e := FindMessage(t).value;
    assert MessageMatch(t, e.key, e.eq, e.lo, e.hi);
    assert e.key == m by {
      assert !(e.key < m) && !(m < e.key);
    }
    MessageMatchSame(t, m, eq, lo, hi, e.eq, e.lo, e.hi);
  }

  lemma SpliceSame(t: string, lo: nat, hi: nat, text: string)
    requires lo <= hi <= |t| && t[lo..hi] == text
    ensures Splice(t, lo, hi, text) == t
  {
    assert t[..lo] + t[lo..hi] + t[hi..] == t;
  }

  /** Replacing the leftmost list with the text already there changes
      nothing. */
  lemma ReplaceAllowListSame(t: string, p: nat, q: nat, list: string)
    requires FirstAllowListMatch(t, p, q) && t[p + |OPEN|..q] == list
    ensures ReplaceAllowList(t, list) == Some(t)
  {
    FindAllowListOf(t, p, q);
    SpliceSame(t, p + |OPEN|, q, list);
  }

  /** The leftmost allow-list match survives any change that keeps the text
      up to the end of `contains([` and leaves a closing `]` on that line. */
  lemma AllowListKept(t: string, u: string, p: nat, q: nat, qu: nat)
    requires FirstAllowListMatch(t, p, q)
    requires p + |OPEN| <= |u| && u[..p + |OPEN|] == t[..p + |OPEN|]
    requires ClosesAt(u, p + |OPEN|, qu)
    ensures FirstAllowListMatch(u, p, qu)
  {
    var k := p + |OPEN|;
    forall j | 0 <= j < k
      ensures u[j] == t[j]
    {
      assert u[..k][j] == u[j] && t[..k][j] == t[j];
    }
    assert u[p..k] == t[p..k];
    forall p': nat, q': nat | p' < p
      ensures !AllowListMatch(u, p', q')
    {
      if AllowListMatch(u, p', q') {
        assert u[p'..p' + |OPEN|] == t[p'..p' + |OPEN|];
        if q' < k {
          assert AllowListMatch(t, p', q');
        } else {
          assert ClosesAt(t, p' + |OPEN|, q);
          assert AllowListMatch(t, p', q);
        }
      }
    }
  }

  /** The message value of a match that starts inside a kept prefix cannot
      reach past the prefix when the next character is neither white space
      nor `=`; the same match is then one of the original text. */
  lemma EarlierMessageKept(t: string, u: string, lo: nat, m: nat, eq: nat, lo': nat, hi': nat)
    requires lo < |u| && lo <= |t| && u[..lo] == t[..lo]
    requires !IsSpace(u[lo]) && u[lo] != '='
    requires lo == |t| || !IsSpace(t[lo])
    requires m + |ERROR_KEY| <= lo
    ensures MessageMatch(u, m, eq, lo', hi') ==> MessageMatch(t, m, eq, lo', LineEnd(t, lo'))
  {
    if MessageMatch(u, m, eq, lo', hi') {
      forall j | 0 <= j < lo
        ensures u[j] == t[j]
      {
        assert u[..lo][j] == u[j] && t[..lo][j] == t[j];
      }
      assert eq < lo;
      assert lo' <= lo;
      assert u[m..m + |ERROR_KEY|] == t[m..m + |ERROR_KEY|];
    }
  }

  /** The message match of `t` is still a match, around the new value, after
      its value is replaced by a one-line text. */
  lemma MessageMatchSpliced(t: string, text: string, m: nat, eq: nat, lo: nat, hi: nat)
    requires MessageMatch(t, m, eq, lo, hi)
    requires text != [] && !IsSpace(text[0]) && '\n' !in text
    ensures MessageMatch(Splice(t, lo, hi, text), m, eq, lo, lo + |text|)
  {
    var u := Splice(t, lo, hi, text);
    var x := lo + |text|;
    forall j | 0 <= j < lo
      ensures u[j] == t[j]
    {
      assert u[..lo][j] == u[j] && t[..lo][j] == t[j];
    }
    forall j | lo <= j < x
      ensures u[j] == text[j - lo]
    {
      assert u[lo..x][j - lo] == u[j];
    }
    if x < |u| {
      assert u[x..][0] == u[x] && t[hi..][0] == t[hi];
    }
    assert u[m..m + |ERROR_KEY|] == t[m..m + |ERROR_KEY|];
  }

  /** Replacing the value of the leftmost message match with a one-line text
      that starts with neither white space nor `=` leaves that match the
      leftmost one, now around the new text. */
  lemma MessageKept(t: string, text: string, m: nat, eq: nat, lo: nat, hi: nat)
    requires FirstMessageMatch(t, m, eq, lo, hi)
    requires text != [] && !IsSpace(text[0]) && text[0] != '=' && '\n' !in text
    ensures FirstMessageMatch(Splice(t, lo, hi, text), m, eq, lo, lo + |text|)
  {
    var u := Splice(t, lo, hi, text);
    MessageMatchSpliced(t, text, m, eq, lo, hi);
    assert u[lo] == text[0] by {
      assert u[lo..lo + |text|][0] == u[lo];
    }
    forall m': nat, eq': nat, lo': nat, hi': nat | m' < m
      ensures !MessageMatch(u, m', eq', lo', hi')
    {
      EarlierMessageKept(t, u, lo, m', eq', lo', hi');
    }
  }

  /** A match depends only on the text from its start on. */
  lemma AllowListMatchShift(a: string, b: string, i: nat, j: nat, p: nat, q: nat)
    requires i <= |a| && j <= |b| && a[i..] == b[j..]
    requires i <= p && AllowListMatch(a, p, q)
    ensures AllowListMatch(b, p - i + j, q - i + j)
  {
    var p2, q2 := p - i + j, q - i + j;
    forall k | p <= k <= q
      ensures a[k] == b[k - i + j]
    {
      assert a[i..][k - i] == a[k] && b[j..][k - i] == b[k - i + j];
    }
    assert a[p..p + |OPEN|] == b[p2..p2 + |OPEN|];
  }

  /** A match that closes inside a shared prefix is a match of both texts. */
  lemma AllowListMatchPrefix(a: string, b: string, k: nat, p: nat, q: nat)
    requires k <= |a| && k <= |b| && a[..k] == b[..k]
    requires q < k && AllowListMatch(a, p, q)
    ensures AllowListMatch(b, p, q)
  {
    forall j | 0 <= j < k
      ensures a[j] == b[j]
    {
      assert a[..k][j] == a[j] && b[..k][j] == b[j];
    }
    assert a[p..p + |OPEN|] == b[p..p + |OPEN|];
  }

  /** No allow-list match of `u` starts before `x` when `u[x]` is a line break
      and `u[..x]` holds no match and no `]` from `lo` on. */
  lemma NoMatchBeforeLineBreak(u: string, x: nat, lo: nat, p: nat, q: nat)
    requires lo <= x < |u| && u[x] == '\n'
    requires forall j :: lo <= j < x ==> u[j] != ']'
    requires forall p': nat, q': nat :: q' < lo ==> !AllowListMatch(u, p', q')
    requires p < x
    ensures !AllowListMatch(u, p, q)
  {
  }

  /** A splice leaves the text before it free of matches when the original
      had none there. */
  lemma SplicePrefixClear(t: string, text: string, lo: nat, hi: nat, p: nat, q: nat)
    requires FirstAllowListMatch(t, p, q) && lo <= hi < p
    ensures forall p': nat, q': nat :: q' < lo ==> !AllowListMatch(Splice(t, lo, hi, text), p', q')
  {
    var u := Splice(t, lo, hi, text);
    forall p': nat, q': nat | q' < lo
      ensures !AllowListMatch(u, p', q')
    {
      if AllowListMatch(u, p', q') {
        AllowListMatchPrefix(u, t, lo, p', q');
      }
    }
  }

  /** When `u` continues from `x` as `t` does from `hi`, has a line break at
      `x`, no `]` in `u[lo..x]` and no match closing before `lo`, a match of
      `u` starting before `p - hi + x` would be a match of `t` starting before
      `p`. */
  lemma ShiftedPrefixClear(t: string, u: string, lo: nat, hi: nat, x: nat, p: nat, q: nat)
    requires FirstAllowListMatch(t, p, q) && hi <= p && lo <= x < |u| && hi <= |t|
    requires u[x..] == t[hi..] && u[x] == '\n'
    requires forall j :: lo <= j < x ==> u[j] != ']'
    requires forall p': nat, q': nat :: q' < lo ==> !AllowListMatch(u, p', q')
    ensures forall p': nat, q': nat :: p' < p - hi + x ==> !AllowListMatch(u, p', q')
  {
    forall p': nat, q': nat | p' < p - hi + x
      ensures !AllowListMatch(u, p', q')
    {
      if p' < x {
        NoMatchBeforeLineBreak(u, x, lo, p', q');
      } else if AllowListMatch(u, p', q') {
        AllowListMatchShift(u, t, x, hi, p', q');
      }
    }
  }

  /** A one-line edit that ends on an earlier line than the leftmost
      allow-list match, and adds no `]`, only moves that match. */
  lemma AllowListAfterEarlierSplice(t: string, text: string, lo: nat, hi: nat, p: nat, q: nat)
    requires FirstAllowListMatch(t, p, q)
    requires lo <= hi < p && t[hi] == '\n' && ']' !in text
    ensures FirstAllowListMatch(Splice(t, lo, hi, text), p - hi + lo + |text|, q - hi + lo + |text|)
  {
    var u := Splice(t, lo, hi, text);
    var x := lo + |text|;
    assert u[x..] == t[hi..];
    AllowListMatchShift(t, u, hi, x, p, q);
    forall j | lo <= j < x
      ensures u[j] != ']'
    {
      assert u[lo..x][j - lo] == u[j];
    }
    assert u[x] == '\n' by {
      assert u[x..][0] == t[hi..][0];
    }
    SplicePrefixClear(t, text, lo, hi, p, q);
    ShiftedPrefixClear(t, u, lo, hi, x, p, q);
  }

  /** The message match found after the allow-list splice lies wholly before
      the `contains([` call or wholly after its closing `]`. */
  ghost predicate MessageClear(content: string, list: string)
  {
    match FindAllowList(content)
    case None => true
    case Some(s) =>
      match FindMessage(Splice(content, s.lo, s.hi, list))
      case None => true
      case Some(e) => e.hi < s.lo - |OPEN| || e.key > s.lo + |list|
  }

  /** The versions in sorted order are the same strings. */
  lemma SortedSingleLine(versions: seq<string>)
    requires Render.SingleLineNoBracket(versions)
    ensures Render.SingleLineNoBracket(VersionOrder.SortVersions(versions))
  {
    var sorted := VersionOrder.SortVersions(versions);
    forall i | 0 <= i < |sorted|
      ensures ']' !in sorted[i] && '\n' !in sorted[i]
    {
      assert sorted[i] in multiset(versions);
    }
  }

  /** After the allow-list splice the new list sits in the leftmost match. */
  lemma SplicedAllowList(content: string, list: string)
    requires FindAllowList(content).Some? && ']' !in list && '\n' !in list
    ensures var s := FindAllowList(content).value;
      var c1 := Splice(content, s.lo, s.hi, list);
      && FirstAllowListMatch(c1, s.lo - |OPEN|, s.lo + |list|)
      && c1[s.lo..s.lo + |list|] == list
  {
    var s := FindAllowList(content).value;
    var c1 := Splice(content, s.lo, s.hi, list);
    var qL := s.lo + |list|;
    forall j | s.lo <= j < qL
      ensures c1[j] != ']' && c1[j] != '\n'
    {
      assert c1[s.lo..qL][j - s.lo] == c1[j];
    }
    assert c1[qL..][0] == content[s.hi..][0];
    assert ClosesAt(c1, s.lo, qL);
    AllowListKept(content, c1, s.lo - |OPEN|, s.hi, qL);
  }

  /** Replacing the message a second time with the same one-line text that
      starts with a quote changes nothing. */
  lemma MessageStable(t: string, msg: string)
    requires msg != [] && msg[0] == '"' && '\n' !in msg
    ensures ReplaceMessage(ReplaceMessage(t, msg), msg) == ReplaceMessage(t, msg)
  {
    match FindMessage(t)
    case None =>
    case Some(e) =>
      var out := Splice(t, e.lo, e.hi, msg);
      MessageKept(t, msg, e.key, e.eq, e.lo, e.hi);
      FindMessageOf(out, e.key, e.eq, e.lo, e.lo + |msg|);
      SpliceSame(out, e.lo, e.lo + |msg|, msg);
  }

  /** Equal suffixes have equal slices at corresponding positions. */
  lemma SliceShift(a: string, b: string, i: nat, j: nat, lo: nat, hi: nat)
    requires i <= lo <= hi <= |a| && j <= |b| && a[i..] == b[j..]
    ensures hi - i + j <= |b| && a[lo..hi] == b[lo - i + j..hi - i + j]
  {
    assert |a| - i == |b| - j;
    forall k | 0 <= k < hi - lo
      ensures a[lo..hi][k] == b[lo - i + j..hi - i + j][k]
    {
      assert a[i..][lo - i + k] == b[j..][lo - i + k];
    }
  }

  /** A message value spliced in after the allow-list call leaves the
      call the leftmost match, holding the same list. */
  lemma AllowListBeforeMessage(c1: string, p: nat, qL: nat, list: string, msg: string, lo: nat, hi: nat)
    requires FirstAllowListMatch(c1, p, qL) && c1[p + |OPEN|..qL] == list
    requires qL < lo <= hi <= |c1|
    ensures var out := Splice(c1, lo, hi, msg);
      ReplaceAllowList(out, list) == Some(out)
  {
    var out := Splice(c1, lo, hi, msg);
    assert out[..lo] == c1[..lo];
    assert out[..p + |OPEN|] == c1[..p + |OPEN|];
    assert out[p + |OPEN|..qL + 1] == c1[p + |OPEN|..qL + 1];
    assert ClosesAt(out, p + |OPEN|, qL);
    AllowListKept(c1, out, p, qL, qL);
    ReplaceAllowListSame(out, p, qL, list);
  }

  /** A one-line message value without `]` spliced in before the allow-list
      call shifts the call but keeps it the leftmost match. */
  lemma AllowListAfterMessage(c1: string, p: nat, qL: nat, list: string, msg: string, lo: nat, hi: nat)
    requires FirstAllowListMatch(c1, p, qL) && c1[p + |OPEN|..qL] == list
    requires lo <= hi < p && c1[hi] == '\n' && ']' !in msg
    ensures var out := Splice(c1, lo, hi, msg);
      ReplaceAllowList(out, list) == Some(out)
  {
    var out := Splice(c1, lo, hi, msg);
    var d := lo + |msg|;
    AllowListAfterEarlierSplice(c1, msg, lo, hi, p, qL);
    SliceShift(c1, out, hi, d, p + |OPEN|, qL);
    ReplaceAllowListSame(out, p - hi + d, qL - hi + d, list);
  }

  /** The allow-list step finds its own output again after the message step,
      unless the message value overlaps the allow-list call. */
  lemma AllowListStable(c1: string, p: nat, qL: nat, list: string, msg: string)
    requires FirstAllowListMatch(c1, p, qL) && c1[p + |OPEN|..qL] == list
    requires ']' !in msg
    requires FindMessage(c1).None? || FindMessage(c1).value.hi < p || FindMessage(c1).value.key > qL
    ensures ReplaceAllowList(ReplaceMessage(c1, msg), list) == Some(ReplaceMessage(c1, msg))
  {
    match FindMessage(c1)
    case None =>
      ReplaceAllowListSame(c1, p, qL, list);
    case Some(e) =>
      assert MessageMatch(c1, e.key, e.eq, e.lo, e.hi);
      if e.key > qL {
        AllowListBeforeMessage(c1, p, qL, list, msg, e.lo, e.hi);
      } else {
        AllowListAfterMessage(c1, p, qL, list, msg, e.lo, e.hi);
      }
  }

  /** The two replacements applied to their own output with the same texts
      change nothing, for one-line texts without `]` where the message starts
      with a quote, when the message value does not overlap the call. */
  lemma ReplaceTwice(c1: string, p: nat, qL: nat, list: string, msg: string)
    requires FirstAllowListMatch(c1, p, qL) && c1[p + |OPEN|..qL] == list
    requires msg != [] && msg[0] == '"' && '\n' !in msg && ']' !in msg
    requires FindMessage(c1).None? || FindMessage(c1).value.hi < p || FindMessage(c1).value.key > qL
    ensures var once := ReplaceMessage(c1, msg);
      ReplaceAllowList(once, list) == Some(once) && ReplaceMessage(once, msg) == once
  {
    AllowListStable(c1, p, qL, list, msg);
    MessageStable(c1, msg);
  }

  /** A rewrite that finds the allow-list call splices it and then the message. */
  lemma RewriteFound(content: string, list: string, msg: string, lo: nat, hi: nat)
    requires FindAllowList(content) == Some(Span(lo, hi))
    ensures lo <= hi <= |content|
    ensures Rewrite(content, list, msg) == Ok(ReplaceMessage(Splice(content, lo, hi, list), msg))
  {
  }

  /** A text both replacements leave alone is rewritten to itself. */
  lemma RewriteFixed(t: string, list: string, msg: string)
    requires ReplaceAllowList(t, list) == Some(t) && ReplaceMessage(t, msg) == t
    ensures Rewrite(t, list, msg) == Ok(t)
  {
  }

  /** The no-overlap hypothesis stated on the spliced text. */
  lemma MessageClearAt(content: string, list: string, lo: nat, hi: nat)
    requires FindAllowList(content) == Some(Span(lo, hi)) && MessageClear(content, list)
    ensures var e := FindMessage(Splice(content, lo, hi, list));
      e.None? || e.value.hi < lo - |OPEN| || e.value.key > lo + |list|
  {
  }

  /** After the allow-list splice, both replacements applied once more to
      the rewritten text change nothing. */
  lemma SplicedTwice(content: string, list: string, msg: string, lo: nat, hi: nat)
    requires ']' !in list && '\n' !in list
    requires msg != [] && msg[0] == '"' && '\n' !in msg && ']' !in msg
    requires FindAllowList(content) == Some(Span(lo, hi)) && MessageClear(content, list)
    ensures lo <= hi <= |content|
    ensures var once := ReplaceMessage(Splice(content, lo, hi, list), msg);
      ReplaceAllowList(once, list) == Some(once) && ReplaceMessage(once, msg) == once
  {
    SplicedAllowList(content, list);
    MessageClearAt(content, list, lo, hi);
    ReplaceTwice(Splice(content, lo, hi, list), lo - |OPEN|, lo + |list|, list, msg);
  }

  /** Rewriting the rewritten text with the same one-line texts, where the
      list holds no `]` and the message holds no `]` and starts with a quote,
      changes nothing when the message value does not overlap the call. */
  lemma RewriteIdempotent(content: string, list: string, msg: string)
    requires ']' !in list && '\n' !in list
    requires msg != [] && msg[0] == '"' && '\n' !in msg && ']' !in msg
    requires Rewrite(content, list, msg).Ok? && MessageClear(content, list)
    ensures Rewrite(Rewrite(content, list, msg).value, list, msg) == Rewrite(content, list, msg)
  {
    var s := FindAllowList(content).value;
    RewriteFound(content, list, msg, s.lo, s.hi);
    SplicedTwice(content, list, msg, s.lo, s.hi);
    RewriteFixed(ReplaceMessage(Splice(content, s.lo, s.hi, list), msg), list, msg);
  }

  /** Updating an already updated text with the same versions gives it back
      unchanged, when no version holds `]` or a line break and the message
      value does not overlap the allow-list call. */
  lemma UpdateIdempotent(content: string, versions: seq<string>)
    requires Render.SingleLineNoBracket(versions)
    requires UpdateContent(content, versions).Ok?
    requires MessageClear(content, Render.AllowListText(VersionOrder.SortVersions(versions)))
    ensures UpdateContent(UpdateContent(content, versions).value, versions) == UpdateContent(content, versions)
  {
    var sorted := VersionOrder.SortVersions(versions);
    SortedSingleLine(versions);
    Render.RenderedSingleLine(sorted);
    RewriteIdempotent(content, Render.AllowListText(sorted), Render.MessageText(sorted));
  }

  /** Without a `[` there is no `contains([` to match. */
  lemma NoBracketNoMatch(t: string)
    requires '[' !in t
    ensures forall p: nat, q: nat :: !AllowListMatch(t, p, q)
  {
    forall p: nat, q: nat
      ensures !AllowListMatch(t, p, q)
    {
      if p + |OPEN| <= |t| {
        assert t[p..p + |OPEN|][9] == t[p + 9];
      }
    }
  }

  /** The message line written for version `1` holds no `[`. */
  lemma MessageOne(vs: seq<string>)
    requires vs == ["1"]
    ensures '[' !in ERROR_KEY + "=" + Render.MessageText(vs)
  {
    assert Text.Join(vs, ", ") == "1";
  }

  /** Version `1` sorts and renders as expected. */
  lemma RenderOne(vs: seq<string>)
    requires vs == ["1"]
    ensures VersionOrder.SortVersions(vs) == vs
    ensures Render.AllowListText(vs) == "\"1\""
  {
    var sorted := VersionOrder.SortVersions(vs);
    assert sorted[0] in multiset(sorted);
    var quoted := Render.QuoteAll(vs);
    assert Render.Quote("1") == "\"1\"";
    assert |quoted| == 1 && quoted[0] == Render.Quote("1");
    assert quoted == ["\"1\""];
  }

  /** In `error_message=contains([x]` the allow-list group is the `x`. */
  lemma OverlapAllowList(content: string)
    requires content == ERROR_KEY + "=" + OPEN + "x]"
    ensures FindAllowList(content) == Some(Span(24, 25))
  {
    assert content[14..24] == OPEN;
    assert ClosesAt(content, 24, 25);
    forall p': nat, q': nat | p' < 14
      ensures !AllowListMatch(content, p', q')
    {
      if p' + |OPEN| <= |content| {
        assert content[p'..p' + |OPEN|][0] == content[p'];
      }
    }
    FindAllowListOf(content, 14, 25);
  }

  /** In `error_message=contains(["1"]` the message value is the whole
      allow-list call. */
  lemma OverlapMessage(c1: string)
    requires c1 == ERROR_KEY + "=" + OPEN + "\"1\"]"
    ensures FindMessage(c1) == Some(MessageSpan(0, 13, 14, 28))
  {
    assert c1[0..13] == ERROR_KEY;
    assert MessageMatch(c1, 0, 13, 14, 28);
    FindMessageOf(c1, 0, 13, 14, 28);
  }

  /** The first update of `error_message=contains([x]` with version `1`:
      the message replaces the whole allow-list call. */
  lemma OverlapFirstRun(content: string, vs: seq<string>)
    requires content == ERROR_KEY + "=" + OPEN + "x]" && vs == ["1"]
    ensures UpdateContent(content, vs) == Ok(ERROR_KEY + "=" + Render.MessageText(vs))
  {
    RenderOne(vs);
    var list, msg := "\"1\"", Render.MessageText(vs);
    OverlapAllowList(content);
    var c1 := Splice(content, 24, 25, list);
    assert c1 == ERROR_KEY + "=" + OPEN + list + "]";
    assert ReplaceAllowList(content, list) == Some(c1);
    OverlapMessage(c1);
    assert ReplaceMessage(c1, msg) == Splice(c1, 14, 28, msg);
    assert c1[..14] == ERROR_KEY + "=" && c1[28..] == [];
    assert Splice(c1, 14, 28, msg) == ERROR_KEY + "=" + msg;
  }

  /** When the message value holds the whole allow-list call, the first
      update succeeds and replaces the call by the message, so the second
      update finds no `contains([...]` and fails: running the update twice
      differs from running it once for `error_message=contains([x]`. */
  lemma OverlapBreaksIdempotence(content: string, vs: seq<string>)
    requires content == ERROR_KEY + "=" + OPEN + "x]" && vs == ["1"]
    ensures UpdateContent(content, vs).Ok?
    ensures UpdateContent(UpdateContent(content, vs).value, vs) == Err(AllowListNotFound)
  {
    OverlapFirstRun(content, vs);
    MessageOne(vs);
    NoBracketNoMatch(ERROR_KEY + "=" + Render.MessageText(vs));
  }
}
