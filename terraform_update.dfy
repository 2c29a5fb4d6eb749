/** The text surgery of `update_terraform_file` (version_restrictor.py:98-137):
    the two regular-expression searches written out as leftmost searches, the
    two slice replacements, and what they promise together. Reading and
    writing the file are not modelled: the content is the input and the text
    to be written back is the result. */
module TerraformUpdate {
  import opened Text
  import opened Outcomes
  import VersionOrder
  import Render

  const OPEN := "contains(["
  const ERROR_KEY := "error_message"

  /** The ASCII characters that Python's `\s` matches: tab, line feed,
      vertical tab, form feed, carriage return, the separators 0x1C-0x1F and
      space. */
  predicate IsSpace(c: char)
  {
    c == ' ' || 9 <= c as int <= 13 || 28 <= c as int <= 31
  }

  // ---------------------------------------------------------------------
  // What the two patterns match, stated as predicates on positions
  // ---------------------------------------------------------------------

  /** `(.*?)\]` run from index `k` stops at `q`: the first `]` from `k` on,
      with no line break before it, since `.` does not match `\n`. */
  predicate ClosesAt(t: string, k: nat, q: nat)
  {
    k <= q < |t| && t[q] == ']' && forall j :: k <= j < q ==> t[j] != ']' && t[j] != '\n'
  }

  /** `contains\(\[(.*?)\]` matches at `p`; group 1 is `t[p + 10..q]`. */
  predicate AllowListMatch(t: string, p: nat, q: nat)
  {
    OccursAt(t, p, OPEN) && ClosesAt(t, p + |OPEN|, q)
  }

  /** The match `re.search` returns: no match starts further left. */
  ghost predicate FirstAllowListMatch(t: string, p: nat, q: nat)
  {
    AllowListMatch(t, p, q) && forall p': nat, q': nat :: p' < p ==> !AllowListMatch(t, p', q')
  }

  predicate AllSpace(t: string, i: nat, j: nat)
    requires i <= j <= |t|
  {
    forall k :: i <= k < j ==> IsSpace(t[k])
  }

  /** `(error_message\s*=\s*)(.*)` matches at `m` with its `=` at `eq`;
      group 2 is `t[lo..hi]`. Both `\s*` are greedy, so `lo` ends the white
      space after `=` (which may span lines), and `.*` runs to the next line
      break or the end of the text. */
  predicate MessageMatch(t: string, m: nat, eq: nat, lo: nat, hi: nat)
  {
    && OccursAt(t, m, ERROR_KEY)
    && m + |ERROR_KEY| <= eq < lo <= hi <= |t|
    && t[eq] == '=' && AllSpace(t, m + |ERROR_KEY|, eq)
    && AllSpace(t, eq + 1, lo) && (lo == |t| || !IsSpace(t[lo]))
    && (forall k :: lo <= k < hi ==> t[k] != '\n') && (hi == |t| || t[hi] == '\n')
  }

  ghost predicate FirstMessageMatch(t: string, m: nat, eq: nat, lo: nat, hi: nat)
  {
    MessageMatch(t, m, eq, lo, hi)
    && forall m': nat, eq': nat, lo': nat, hi': nat :: m' < m ==> !MessageMatch(t, m', eq', lo', hi')
  }

  ghost predicate NoMessageMatch(t: string)
  {
    forall m: nat, eq: nat, lo: nat, hi: nat :: !MessageMatch(t, m, eq, lo, hi)
  }

  // ---------------------------------------------------------------------
  // The searches
  // ---------------------------------------------------------------------

  function BracketFrom(t: string, k: nat): (r: Option<nat>)
    ensures r.Some? ==> ClosesAt(t, k, r.value)
    ensures r.None? ==> forall q: nat :: !ClosesAt(t, k, q)
    decreases |t| - k
  {
    if k >= |t| then None
    else if t[k] == ']' then Some(k)
    else if t[k] == '\n' then None
    else
      var r := BracketFrom(t, k + 1);
      assert forall q: nat :: ClosesAt(t, k, q) ==> ClosesAt(t, k + 1, q);
      r
  }

  /** A group span `t[lo..hi]`, as `match.span(...)` gives it. */
  datatype Span = Span(lo: nat, hi: nat)

  function FindAllowListFrom(t: string, from: nat): (r: Option<Span>)
    ensures r.Some? ==> from + |OPEN| <= r.value.lo && AllowListMatch(t, r.value.lo - |OPEN|, r.value.hi)
    ensures r.Some? ==> forall p: nat, q: nat :: from <= p < r.value.lo - |OPEN| ==> !AllowListMatch(t, p, q)
    ensures r.None? ==> forall p: nat, q: nat :: from <= p ==> !AllowListMatch(t, p, q)
    decreases |t| - from
  {
    if from + |OPEN| > |t| then None
    else if OccursAt(t, from, OPEN) && BracketFrom(t, from + |OPEN|).Some? then
      Some(Span(from + |OPEN|, BracketFrom(t, from + |OPEN|).value))
    else FindAllowListFrom(t, from + 1)
  }

  /** `re.search(r"contains\(\[(.*?)\]", content).span(1)` (lines 110-119). */
  function FindAllowList(t: string): (r: Option<Span>)
    ensures r.Some? ==> r.value.lo >= |OPEN| && FirstAllowListMatch(t, r.value.lo - |OPEN|, r.value.hi)
    ensures r.None? ==> forall p: nat, q: nat :: !AllowListMatch(t, p, q)
  {
    FindAllowListFrom(t, 0)
  }

  /** The end of the run of white space that starts at `k`. */
  function SpacesEnd(t: string, k: nat): (r: nat)
    requires k <= |t|
    ensures k <= r <= |t| && AllSpace(t, k, r) && (r == |t| || !IsSpace(t[r]))
    decreases |t| - k
  {
    if k == |t| || !IsSpace(t[k]) then k else SpacesEnd(t, k + 1)
  }

  /** The first line break at or after `k`, or the end of the text. */
  function LineEnd(t: string, k: nat): (r: nat)
    requires k <= |t|
    ensures k <= r <= |t| && (forall j :: k <= j < r ==> t[j] != '\n') && (r == |t| || t[r] == '\n')
    decreases |t| - k
  {
    if k == |t| || t[k] == '\n' then k else LineEnd(t, k + 1)
  }

  /** Where a match of the message pattern starts, where its `=` is, and the
      span of group 2. */
  datatype MessageSpan = MessageSpan(key: nat, eq: nat, lo: nat, hi: nat)

  /** At a given start the message pattern can match in one way only. */
  lemma MessageMatchDetermined(t: string, m: nat, eq: nat, lo: nat, hi: nat)
    requires MessageMatch(t, m, eq, lo, hi)
    ensures eq == SpacesEnd(t, m + |ERROR_KEY|) && lo == SpacesEnd(t, eq + 1) && hi == LineEnd(t, lo)
  {
  }

  function FindMessageFrom(t: string, from: nat): (r: Option<MessageSpan>)
    ensures r.Some? ==> from <= r.value.key && MessageMatch(t, r.value.key, r.value.eq, r.value.lo, r.value.hi)
    ensures r.Some? ==> forall m: nat, eq: nat, lo: nat, hi: nat :: from <= m < r.value.key ==> !MessageMatch(t, m, eq, lo, hi)
    ensures r.None? ==> forall m: nat, eq: nat, lo: nat, hi: nat :: from <= m ==> !MessageMatch(t, m, eq, lo, hi)
    decreases |t| - from
  {
    if from + |ERROR_KEY| > |t| then None
    else
      var eq := SpacesEnd(t, from + |ERROR_KEY|);
      if OccursAt(t, from, ERROR_KEY) && eq < |t| && t[eq] == '=' then
        var lo := SpacesEnd(t, eq + 1);
        Some(MessageSpan(from, eq, lo, LineEnd(t, lo)))
      else
        assert forall eq': nat, lo': nat, hi': nat :: !MessageMatch(t, from, eq', lo', hi') by {
          forall eq': nat, lo': nat, hi': nat | MessageMatch(t, from, eq', lo', hi') ensures false {
            MessageMatchDetermined(t, from, eq', lo', hi');
          }
        }
        FindMessageFrom(t, from + 1)
  }

  /** `re.search(r"(error_message\s*=\s*)(.*)", new_content)` (lines 125-126). */
  function FindMessage(t: string): (r: Option<MessageSpan>)
    ensures r.Some? ==> FirstMessageMatch(t, r.value.key, r.value.eq, r.value.lo, r.value.hi)
    ensures r.None? ==> NoMessageMatch(t)
  {
    FindMessageFrom(t, 0)
  }

  // ---------------------------------------------------------------------
  // The replacements
  // ---------------------------------------------------------------------

  /** `t[:lo] + text + t[hi:]`: the text before `lo` and from `hi` on is
      kept, and `text` stands in between. */
  function Splice(t: string, lo: nat, hi: nat, text: string): (r: string)
    requires lo <= hi <= |t|
    ensures |r| == |t| - (hi - lo) + |text|
    ensures r[..lo] == t[..lo] && r[lo..lo + |text|] == text && r[lo + |text|..] == t[hi..]
  {
    t[..lo] + text + t[hi..]
  }

  /** Lines 110-120: the group of the leftmost `contains([...]` match is
      replaced; `contains([`, the `]` and all other text are kept. `None`
      when the pattern matches nowhere. */
  function ReplaceAllowList(t: string, text: string): (r: Option<string>)
    ensures r.None? <==> forall p: nat, q: nat :: !AllowListMatch(t, p, q)
    ensures r.Some? ==> exists p: nat, q: nat :: FirstAllowListMatch(t, p, q) && r.value == t[..p + |OPEN|] + text + t[q..]
  {
    match FindAllowList(t)
    case None => None
    case Some(s) =>
      assert FirstAllowListMatch(t, s.lo - |OPEN|, s.hi);
      Some(Splice(t, s.lo, s.hi, text))
  }

  /** Lines 125-137: the value of the leftmost `error_message = ...` match is
      replaced and all other text kept; without a match the text is kept. */
  function ReplaceMessage(t: string, text: string): (r: string)
    ensures NoMessageMatch(t) ==> r == t
    ensures !NoMessageMatch(t) ==>
      exists m: nat, eq: nat, lo: nat, hi: nat :: FirstMessageMatch(t, m, eq, lo, hi) && r == t[..lo] + text + t[hi..]
  {
    match FindMessage(t)
    case None => t
    case Some(e) =>
      assert FirstMessageMatch(t, e.key, e.eq, e.lo, e.hi);
      Splice(t, e.lo, e.hi, text)
  }

  /** Lines 110-137: the two replacements in turn. The result fails, and
      nothing is written, exactly when the text has no `contains([...]`
      match; otherwise the message step always produces a text. */
  function Rewrite(content: string, list: string, msg: string): (r: Result<string>)
    ensures r.Err? <==> forall p: nat, q: nat :: !AllowListMatch(content, p, q)
    ensures r.Err? ==> r.failure == AllowListNotFound
  {
    match ReplaceAllowList(content, list)
    case None => Err(AllowListNotFound)
    case Some(spliced) => Ok(ReplaceMessage(spliced, msg))
  }

  /** `update_terraform_file` from the sort to the text it writes back
      (lines 98-137): sort, render both texts, rewrite. */
  function UpdateContent(content: string, versions: seq<string>): (r: Result<string>)
    ensures r.Err? <==> forall p: nat, q: nat :: !AllowListMatch(content, p, q)
    ensures r.Err? ==> r.failure == AllowListNotFound
  {
    var sorted := VersionOrder.SortVersions(versions);
    Rewrite(content, Render.AllowListText(sorted), Render.MessageText(sorted))
  }
}
