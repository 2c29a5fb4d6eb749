/** The two texts that `update_terraform_file` writes into the file: the
    quoted allow-list (version_restrictor.py:106) and the error message
    (version_restrictor.py:129-131). */
module Render {
  import opened Text
  import opened Outcomes

  function Quote(v: string): string
  {
    "\"" + v + "\""
  }

  function QuoteAll(versions: seq<string>): seq<string>
  {
    seq(|versions|, i requires 0 <= i < |versions| => Quote(versions[i]))
  }

  /** `", ".join([f'"{v}"' for v in sorted_versions])` */
  function AllowListText(versions: seq<string>): string
  {
    Join(QuoteAll(versions), ", ")
  }

  const MESSAGE_LEAD := "The cluster_version must be one of: "

  /** `f'"The cluster_version must be one of: {", ".join(sorted_versions)}."'` */
  function MessageText(versions: seq<string>): string
  {
    "\"" + MESSAGE_LEAD + Join(versions, ", ") + ".\""
  }

  predicate Unquoted(versions: seq<string>)
  {
    forall i :: 0 <= i < |versions| ==> '"' !in versions[i]
  }

  /** The index of the first `"` in `t` at or after `k`, or `|t|`. */
  function QuoteFrom(t: string, k: nat): (j: nat)
    requires k <= |t|
    ensures k <= j <= |t| && (j < |t| ==> t[j] == '"')
    ensures forall i :: k <= i < j ==> t[i] != '"'
    decreases |t| - k
  {
    if k == |t| || t[k] == '"' then k else QuoteFrom(t, k + 1)
  }

  /** Reads a non-empty list of `"`-quoted items separated by `, `. */
  function ParseItems(t: string): Option<seq<string>>
    decreases |t|
  {
    if t == [] || t[0] != '"' then None
    else
      var j := QuoteFrom(t, 1);
      if j == |t| then None
      else
        var rest := t[j + 1..];
        if rest == [] then Some([t[1..j]])
        else if |rest| >= 2 && rest[..2] == ", " then
          match ParseItems(rest[2..])
          case None => None
          case Some(items) => Some([t[1..j]] + items)
        else None
  }

  /** Reads the allow-list text back into versions. */
  function ParseAllowList(t: string): Option<seq<string>>
  {
    if t == "" then Some([]) else ParseItems(t)
  }

  /** The first item of a quoted list ends at the first quote after the
      opening one. */
  lemma QuotedHead(v: string, tail: string)
    requires '"' !in v
    ensures var t := Quote(v) + tail;
      QuoteFrom(t, 1) == 1 + |v| && t[1..1 + |v|] == v && t[2 + |v|..] == tail
  {
    var t := Quote(v) + tail;
    assert forall i :: 1 <= i < 1 + |v| ==> t[i] == v[i - 1];
    assert t[1 + |v|] == '"';
    assert t[1..1 + |v|] == v;
    assert t[2 + |v|..] == tail;
  }

  /** One step of the parser on a quoted first item. */
  lemma ParseItemsCons(v: string, tail: string)
    requires '"' !in v
    ensures ParseItems(Quote(v) + tail) ==
      if tail == [] then Some([v])
      else if |tail| >= 2 && tail[..2] == ", " then
        (match ParseItems(tail[2..])
         case None => None
         case Some(items) => Some([v] + items))
      else None
  {
    QuotedHead(v, tail);
    assert (Quote(v) + tail)[0] == '"';
  }

  lemma {:induction false} ParseItemsJoin(versions: seq<string>)
    requires |versions| >= 1 && Unquoted(versions)
    ensures ParseItems(Join(QuoteAll(versions), ", ")) == Some(versions)
  {
    var v := versions[0];
    var quoted := QuoteAll(versions);
    assert quoted[0] == Quote(v);
    if |versions| == 1 {
      ParseItemsCons(v, "");
      assert Quote(v) + "" == Quote(v) == Join(quoted, ", ");
      assert [v] == versions;
    } else {
      var rest := Join(QuoteAll(versions[1..]), ", ");
      var tail := ", " + rest;
      assert quoted[1..] == QuoteAll(versions[1..]);
      assert Join(quoted, ", ") == Quote(v) + tail;
      ParseItemsCons(v, tail);
      assert tail[..2] == ", " && tail[2..] == rest;
      ParseItemsJoin(versions[1..]);
      assert [v] + versions[1..] == versions;
    }
  }

  /** The allow-list text reads back as exactly the versions, in order,
      provided no version contains a double quote. */
  lemma AllowListRoundTrip(versions: seq<string>)
    requires Unquoted(versions)
    ensures ParseAllowList(AllowListText(versions)) == Some(versions)
  {
    if versions != [] {
      ParseItemsJoin(versions);
      assert AllowListText(versions)[0] == '"';
    }
  }

  /** `t` with every double quote removed. */
  function StripQuotes(t: string): string
  {
    if t == [] then [] else (if t[0] == '"' then [] else [t[0]]) + StripQuotes(t[1..])
  }

  lemma {:induction false} StripQuotesConcat(a: string, b: string)
    ensures StripQuotes(a + b) == StripQuotes(a) + StripQuotes(b)
  {
    if a == [] {
      assert a + b == b;
    } else {
      assert (a + b)[0] == a[0];
      assert (a + b)[1..] == a[1..] + b;
      StripQuotesConcat(a[1..], b);
    }
  }

  lemma {:induction false} StripQuotesUnquoted(v: string)
    requires '"' !in v
    ensures StripQuotes(v) == v
  {
    if v != [] {
      StripQuotesUnquoted(v[1..]);
      assert [v[0]] + v[1..] == v;
    }
  }

  lemma {:induction false} StripQuotesJoin(versions: seq<string>)
    requires Unquoted(versions)
    ensures StripQuotes(AllowListText(versions)) == Join(versions, ", ")
  {
    if versions != [] {
      var v := versions[0];
      StripQuotesConcat("\"", v);
      StripQuotesConcat("\"" + v, "\"");
      StripQuotesUnquoted(v);
      assert StripQuotes(Quote(v)) == v;
      if |versions| > 1 {
        assert QuoteAll(versions)[1..] == QuoteAll(versions[1..]);
        StripQuotesJoin(versions[1..]);
        StripQuotesConcat(Quote(v), ", ");
        StripQuotesConcat(Quote(v) + ", ", AllowListText(versions[1..]));
        StripQuotesUnquoted(", ");
      }
    }
  }

  /** The message names the same versions, in the same order, as the
      allow-list: it is the allow-list with its quotes dropped, between the
      fixed lead and the closing period. */
  lemma MessageMatchesAllowList(versions: seq<string>)
    requires Unquoted(versions)
    ensures MessageText(versions) == "\"" + MESSAGE_LEAD + StripQuotes(AllowListText(versions)) + ".\""
  {
    StripQuotesJoin(versions);
  }

  predicate SingleLineNoBracket(versions: seq<string>)
  {
    forall i :: 0 <= i < |versions| ==> ']' !in versions[i] && '\n' !in versions[i]
  }

  /** A character that is in no version and is not one of `"`, `,` and
      space is not in the allow-list text. */
  lemma AllowListAvoids(versions: seq<string>, c: char)
    requires c != '"' && c != ',' && c != ' '
    requires forall i :: 0 <= i < |versions| ==> c !in versions[i]
    ensures c !in AllowListText(versions)
  {
    var quoted := QuoteAll(versions);
    forall i | 0 <= i < |quoted|
      ensures c !in quoted[i]
    {
      assert quoted[i] == "\"" + versions[i] + "\"";
    }
    JoinAvoids(quoted, ", ", c);
  }

  /** A character that is in no version and not in the fixed parts of the
      message is not in the message. */
  lemma MessageAvoids(versions: seq<string>, c: char)
    requires c != '"' && c != ',' && c != ' ' && c != '.' && c !in MESSAGE_LEAD
    requires forall i :: 0 <= i < |versions| ==> c !in versions[i]
    ensures c !in MessageText(versions)
  {
    JoinAvoids(versions, ", ", c);
  }

  /** Versions without `]` and line breaks give texts without them, and the
      message starts with a quote, which is not white space. */
  lemma RenderedSingleLine(versions: seq<string>)
    requires SingleLineNoBracket(versions)
    ensures ']' !in AllowListText(versions) && '\n' !in AllowListText(versions)
    ensures ']' !in MessageText(versions) && '\n' !in MessageText(versions)
    ensures MessageText(versions) != [] && MessageText(versions)[0] == '"'
  {
    AllowListAvoids(versions, ']');
    AllowListAvoids(versions, '\n');
    LeadSingleLine();
    MessageAvoids(versions, ']');
    MessageAvoids(versions, '\n');
  }

  lemma LeadSingleLine()
    ensures ']' !in MESSAGE_LEAD && '\n' !in MESSAGE_LEAD
  {
  }

  /** The allow-list and message for the versions 1.29 and 1.30. */
  lemma RenderExample()
    ensures AllowListText(["1.29", "1.30"]) == "\"1.29\", \"1.30\""
    ensures MessageText(["1.29", "1.30"]) == "\"" + "The cluster_version must be one of: " + "1.29, 1.30" + ".\""
  {
    var vs := ["1.29", "1.30"];
    assert Quote("1.29") == "\"1.29\"" && Quote("1.30") == "\"1.30\"";
    assert QuoteAll(vs)[0] == Quote("1.29") && QuoteAll(vs)[1] == Quote("1.30");
    assert QuoteAll(vs) == ["\"1.29\"", "\"1.30\""];
    assert QuoteAll(vs)[1..] == ["\"1.30\""];
    assert vs[1..] == ["1.30"];
    assert Join(vs, ", ") == "1.29, 1.30";
  }
}
