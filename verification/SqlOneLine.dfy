/**
 Where the formatter cuts a line that has a call and its query.
 */
module SqlOneLine {
  import opened Text
  import opened SqlText
  import opened SqlFormat
  import opened SqlFormatTwice

  lemma {:induction false} IndexOfIs(s: string, t: string, k: nat)
    requires OccursAt(s, t, k) && forall j: nat :: j < k ==> !OccursAt(s, t, j)
    ensures IndexOf(s, t) == k
  {
    if k == 0 {
      assert s[0..] == s;
    } else {
      assert !OccursAt(s, t, 0) && s[0..] == s;
      forall j: nat | j < k - 1
        ensures !OccursAt(s[1..], t, j)
      {
        assert s[1..][j..] == s[j + 1..];
        assert !OccursAt(s, t, j + 1);
      }
      assert s[1..][k - 1..] == s[k..];
      IndexOfIs(s[1..], t, k - 1);
    }
  }

  lemma {:induction false} FirstQuote(before: string, after: string)
    requires '"' !in before
    ensures IndexOf(before + "\"" + after, "\"") == |before|
  {
    var s := before + "\"" + after;
    assert s[|before|..] == "\"" + after;
    forall j: nat | j < |before|
      ensures !OccursAt(s, "\"", j)
    {
      assert s[j..][0] == before[j];
    }
    IndexOfIs(s, "\"", |before|);
  }

  lemma {:induction false} IndexOfAtMost(s: string, t: string, i: nat)
    requires OccursAt(s, t, i)
    ensures 0 <= IndexOf(s, t) <= i
  {
    if i == 0 {
      assert s[0..] == s;
    } else if !(t <= s) {
      assert s[1..][i - 1..] == s[i..];
      IndexOfAtMost(s[1..], t, i - 1);
    }
  }

  /** A string body in which a backslash precedes every quote. */
  predicate QuotesEscaped(body: string) {
    forall i :: 0 <= i < |body| && body[i] == '"' ==> i > 0 && body[i - 1] == '\\'
  }

  /** The closing quote is seen at its place: it is not taken for an escaped one, and not overlooked. */
  predicate ClosesVisibly(body: string, after: string) {
    if body == [] then after == [] else body[|body| - 1] != '\\'
  }

  /** A line with a regular string after a call. */
  function RegularLine(before: string, body: string, after: string): string {
    before + CALL + "\"" + body + "\"" + after
  }

  lemma {:induction false} ClosingQuote(body: string, after: string)
    requires body != [] && body[|body| - 1] != '\\'
    requires forall i :: 0 < i < |body| && body[i] == '"' ==> body[i - 1] == '\\'
    ensures SearchQuote(body + "\"" + after) == |body| - 1
  {
    var s := body + "\"" + after;
    if |body| == 1 {
      assert s[0] == body[0] && s[1] == '"';
    } else {
      assert s[0] == body[0] && s[1] == body[1] && s[1..] == body[1..] + "\"" + after;
      ClosingQuote(body[1..], after);
    }
  }

  lemma {:induction false} RegularStart(before: string, body: string, after: string)
    requires '"' !in before
    ensures var line, k := RegularLine(before, body, after), |before + CALL|;
      IndexOf(line, "\"") == k && Slice(line, 0, k) == before + CALL
      && SliceFrom(line, k) == "\"" + (body + "\"" + after)
      && SliceFrom("\"" + (body + "\"" + after), 1) == body + "\"" + after
  {
    hide IndexOf;
    var tail := body + "\"" + after;
    assert RegularLine(before, body, after) == before + CALL + "\"" + tail;
    CallHasNoQuote();
    FirstQuote(before + CALL, tail);
  }

  lemma {:induction false} QuoteInside(before: string, body: string, after: string, i: nat)
    requires i < |before| && before[i] == '"'
    ensures var line := RegularLine(before, body, after);
      0 <= IndexOf(line, "\"") <= i && Slice(line, 0, IndexOf(line, "\"")) != before + CALL
  {
    hide IndexOf;
    var line := RegularLine(before, body, after);
    assert line[i..][0] == line[i] == '"';
    assert "\"" <= line[i..];
    IndexOfAtMost(line, "\"", i);
  }

  /** How many characters of the string are taken out. */
  lemma {:induction false} RegularEnd(body: string, after: string)
    requires QuotesEscaped(body)
    ensures var tail := body + "\"" + after;
      |Slice("\"" + tail, 0, QuoteEnd(tail) + 3)| == |body| + 2 <==> ClosesVisibly(body, after)
  {
    hide SearchQuote;
    var tail := body + "\"" + after;
    if body == [] {
      assert tail == "\"" + after;
    } else {
      assert tail[0] == body[0] && tail[|body|] == '"' && tail[|body| - 1] == body[|body| - 1];
      if body[|body| - 1] != '\\' {
        ClosingQuote(body, after);
      }
    }
  }

  /**
   A regular string after a call is cut out as a whole if and only if the line has no call of something that
   starts with `r`, no quote before the call, and a closing quote that is seen: not after a backslash, and
   not right after the opening one with more to come.
   */
  lemma {:induction false} RegularSplit(before: string, body: string, after: string)
    requires QuotesEscaped(body)
    ensures var line := RegularLine(before, body, after);
      SplitOneLine(line) == Parts(before + CALL, "\"" + body + "\"", after, false)
      <==> !Contains(line, "sqlx::query!(r") && '"' !in before && ClosesVisibly(body, after)
  {
    hide Contains, IndexOf, QuoteEnd, ClosesVisibly, QuotesEscaped;
    var line, tail := RegularLine(before, body, after), body + "\"" + after;
    if Contains(line, "sqlx::query!(r") {
    } else if i :| 0 <= i < |before| && before[i] == '"' {
      QuoteInside(before, body, after, i);
    } else {
      RegularStart(before, body, after);
      RegularEnd(body, after);
      var rest := "\"" + tail;
      assert rest[..|body| + 2] == "\"" + body + "\"" && rest[|body| + 2..] == after;
      RegularRest(rest, QuoteEnd(tail) + 3, |body| + 2);
    }
  }

  lemma {:induction false} RegularRest(rest: string, end: int, n: nat)
    requires n <= |rest| && end >= 2
    ensures |Slice(rest, 0, end)| == n ==> Slice(rest, 0, end) == rest[..n] && SliceFrom(rest, end) == rest[n..]
  {
  }

  /** A string that ends in an escaped backslash: only the opening quote and one character are taken out. */
  lemma {:induction false} BackslashSplit(before: string, body: string, after: string)
    requires '"' !in before && '"' !in body && '"' !in after && body != [] && body[|body| - 1] == '\\'
    requires !Contains(RegularLine(before, body, after), "sqlx::query!(r")
    ensures SplitOneLine(RegularLine(before, body, after))
         == Parts(before + CALL, "\"" + body[..1], body[1..] + "\"" + after, false)
  {
    hide Contains, IndexOf, SearchQuote;
    var tail := body + "\"" + after;
    RegularStart(before, body, after);
    assert tail[0] == body[0] && tail[|body| - 1] == '\\';
    assert forall k :: 0 <= k < |tail| && tail[k] == '"' ==> k == |body|;
    CutAfterFirst(body, after);
  }

  lemma {:induction false} CutAfterFirst(body: string, after: string)
    requires body != []
    ensures var text := "\"" + (body + "\"" + after);
      Slice(text, 0, 2) == "\"" + body[..1] && SliceFrom(text, 2) == body[1..] + "\"" + after
  {
    var text := "\"" + (body + "\"" + after);
    assert text[..2] == "\"" + body[..1];
    assert text[2..] == body[1..] + "\"" + after;
  }

  /** Such a line is well placed as soon as nothing that follows the query is a call. */
  lemma {:induction false} RegularIsWellPlaced(before: string, body: string, after: string)
    requires QuotesEscaped(body) && '"' !in before && ClosesVisibly(body, after) && !IsTrigger(after)
    requires !Contains(RegularLine(before, body, after), "sqlx::query!(r")
    ensures var line := RegularLine(before, body, after);
      WellPlaced(line) && Fits(OneLine(line))
  {
    hide Contains, SplitOneLine, IsTrigger, Search, EndsWith, ClosesVisibly, QuotesEscaped;
    var line, prefix := RegularLine(before, body, after), before + CALL;
    RegularSplit(before, body, after);
    EndsWithCall(before);
    if Contains(prefix, "sqlx::query!(\"") {
      assert "sqlx::query!(" + "\"" == "sqlx::query!(\"";
      ContainsPart(prefix, "sqlx::query!(", "\"");
      var i := ContainsWitness(prefix, "\"");
      assert prefix[i] == prefix[i..][0] == '"';
      CallHasNoQuote();
    }
    if Contains(prefix, "sqlx::query!(r") {
      assert line == prefix + ("\"" + body + "\"" + after);
      ContainsLonger(prefix, "\"" + body + "\"" + after, "sqlx::query!(r");
    }
    SearchQuoted(body);
  }

  lemma {:induction false} EndsWithCall(before: string)
    ensures EndsWith(before + CALL, CALL)
  {
  }

  lemma {:induction false} CallHasNoQuote()
    ensures '"' !in CALL
  {
  }

  lemma {:induction false} ContainsLonger(s: string, more: string, t: string)
    requires Contains(s, t)
    ensures Contains(s + more, t)
  {
    hide Contains;
    var i := ContainsWitness(s, t);
    assert (s + more)[i..] == s[i..] + more;
    ContainsAt(s + more, t, i);
  }

  lemma {:induction false} SearchQuoted(body: string)
    ensures Search("\"" + body + "\"") == 0
  {
    NotSpace();
    assert ("\"" + body + "\"")[0] == '"';
  }

  /** A line with a raw string after a call. */
  function RawLine(before: string, body: string, after: string): string {
    before + CALL + "r#\"" + body + "\"#" + after
  }

  /** A raw string after a call is cut out as a whole if and only if neither its start nor its end comes earlier. */
  lemma {:induction false} RawSplit(before: string, body: string, after: string)
    ensures SplitOneLine(RawLine(before, body, after)) == Parts(before + CALL, "r#\"" + body + "\"#", after, true)
       <==> !Contains(before + CALL, "r#\"") && !Contains("\"" + body, "\"#")
  {
    hide Contains, IndexOf;
    var line, rest, k := RawLine(before, body, after), "r#\"" + body + "\"#" + after, |before + CALL|;
    assert line == before + CALL + rest;
    assert line[|before|..] == CALL + rest && "sqlx::query!(r" <= CALL + rest;
    ContainsAt(line, "sqlx::query!(r", |before|);
    if Contains(before + CALL, "r#\"") {
      RawEarlier(before + CALL, rest);
    } else {
      RawStart(before, rest);
      assert SliceFrom(line, k) == rest && Slice(line, 0, k) == before + CALL;
      if Contains("\"" + body, "\"#") {
        RawEndsEarlier(body, after);
      } else {
        RawEnd(body, after);
        assert Slice(rest, 0, |body| + 5) == "r#\"" + body + "\"#" && SliceFrom(rest, |body| + 5) == after;
      }
    }
  }

  lemma {:induction false} RawEarlier(prefix: string, rest: string)
    requires Contains(prefix, "r#\"")
    ensures var k := IndexOf(prefix + rest, "r#\""); 0 <= k < |prefix| && |Slice(prefix + rest, 0, k)| < |prefix|
  {
    hide Contains, IndexOf;
    var i := ContainsWitness(prefix, "r#\"");
    assert (prefix + rest)[i..] == prefix[i..] + rest;
    IndexOfAtMost(prefix + rest, "r#\"", i);
  }

  lemma {:induction false} RawEndsEarlier(body: string, after: string)
    requires Contains("\"" + body, "\"#")
    ensures var rest := "r#\"" + body + "\"#" + after;
      |Slice(rest, 0, IndexOf(rest, "\"#") + 2)| < |body| + 5
  {
    hide Contains, IndexOf;
    var inner, rest := "\"" + body, "r#\"" + body + "\"#" + after;
    var i := ContainsWitness(inner, "\"#");
    assert rest == "r#" + (inner + ("\"#" + after));
    assert rest[i + 2..] == inner[i..] + ("\"#" + after);
    IndexOfAtMost(rest, "\"#", i + 2);
  }

  lemma {:induction false} RawStart(before: string, rest: string)
    requires !Contains(before + CALL, "r#\"") && "r#\"" <= rest
    ensures IndexOf(before + CALL + rest, "r#\"") == |before + CALL|
  {
    hide Contains;
    var prefix, line, t := before + CALL, before + CALL + rest, "r#\"";
    var k := |prefix|;
    assert line[k..] == rest;
    assert prefix[k - 1] == '(' && prefix[k - 2] == '!';
    forall j: nat | j < k
      ensures !OccursAt(line, t, j)
    {
      if OccursAt(line, t, j) {
        assert line[j] == line[j..][0] == 'r';
        if j + 3 <= k {
          assert line[j..][..3] == prefix[j..][..3];
          assert t <= prefix[j..];
          ContainsAt(prefix, t, j);
        }
      }
    }
    IndexOfIs(line, t, k);
  }

  lemma {:induction false} RawEnd(body: string, after: string)
    requires !Contains("\"" + body, "\"#")
    ensures IndexOf("r#\"" + body + "\"#" + after, "\"#") == |body| + 3
  {
    hide Contains;
    var s, t := "r#\"" + body + "\"#" + after, "\"#";
    var inner := "\"" + body;
    assert s == "r#" + inner + "\"#" + after;
    assert s[|body| + 3..] == "\"#" + after;
    forall j: nat | j < |body| + 3
      ensures !OccursAt(s, t, j)
    {
      if OccursAt(s, t, j) {
        assert s[j] == s[j..][0] == '"' && s[j + 1] == s[j..][1] == '#';
        assert j >= 2;
        if j + 2 < |body| + 4 {
          assert inner[j - 2..][..2] == s[j..][..2];
          ContainsAt(inner, t, j - 2);
        }
      }
    }
    IndexOfIs(s, t, |body| + 3);
  }

  /** An empty query is cut one character too late: what follows it becomes part of the query. */
  lemma {:induction false} EmptyQuerySplit(before: string, c: char, after: string)
    requires '"' !in before
    requires var line := before + CALL + "\"" + "\"" + [c] + after; !Contains(line, "sqlx::query!(r")
    ensures var line := before + CALL + "\"" + "\"" + [c] + after;
      SplitOneLine(line) == Parts(before + CALL, "\"" + "\"" + [c], after, false)
  {
    hide Contains, IndexOf;
    var line := before + CALL + "\"" + "\"" + [c] + after;
    var tail := "\"" + [c] + after;
    var k := |before + CALL|;
    assert line == before + CALL + "\"" + tail;
    CallHasNoQuote();
    FirstQuote(before + CALL, tail);
    assert SliceFrom(line, k) == "\"" + tail && Slice(line, 0, k) == before + CALL;
    assert SliceFrom("\"" + tail, 1) == tail && "\"" <= tail;
    assert Slice("\"" + tail, 0, 3) == "\"" + "\"" + [c] && SliceFrom("\"" + tail, 3) == after;
  }
}
