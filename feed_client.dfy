/**
 * FeedClient: what `fetchFeed` does with one feed's response, and the `cleanTitle` transform
 * it applies to every headline. The HTTP request and JSON decoding are not modelled: the
 * response arrives as a value, with `None` standing for a body that did not decode.
 */
module FeedClient {
  import opened Wrappers
  import opened Text
  import opened News

  /** A raw item of the decoded payload; a missing title or description is `None`. */
  datatype RawItem = RawItem(title: Option<string>, link: string, pubDate: int, description: Option<string>)

  /** The decoded body of the feed-conversion endpoint. */
  datatype FeedPayload = FeedPayload(status: string, items: seq<RawItem>)

  /** An HTTP response: its `ok` flag and its body, `None` when `response.json()` fails. */
  datatype FeedResponse = FeedResponse(ok: bool, payload: Option<FeedPayload>)

  // ----- Tag removal: `.replace(/<[^>]+>/g, '')` -----

  /**
   * `t` starts with a match of `<[^>]+>`: a `<`, at least one character other than `>`, then
   * a `>` somewhere later.
   */
  predicate IsTagStart(t: string) {
    |t| >= 2 && t[0] == '<' && t[1] != '>' && '>' in t[2..]
  }

  /** Index of the first occurrence of `c` in `s`. */
  function FirstIndexOf(s: string, c: char): (i: nat)
    requires c in s
    ensures i < |s| && s[i] == c && c !in s[..i]
    decreases |s|
  {
    if s[0] == c then 0 else 1 + FirstIndexOf(s[1..], c)
  }

  /** Length of the tag `t` starts with: it ends at the first `>` after the `<`. */
  function TagLength(t: string): (n: nat)
    requires IsTagStart(t)
    ensures 3 <= n <= |t| && t[n - 1] == '>' && '>' !in t[1..n - 1]
  {
    var k := FirstIndexOf(t[2..], '>');
    assert t[1..k + 2] == [t[1]] + t[2..][..k];
    k + 3
  }

  /** No position of `s` starts a tag. */
  predicate NoTags(s: string) {
    forall i :: 0 <= i < |s| ==> !IsTagStart(s[i..])
  }

  /** Removes every tag, scanning left to right as a global regular-expression replace does. */
  function StripTags(s: string): (r: string)
    ensures |r| <= |s|
    ensures forall c :: c in r ==> c in s
    decreases |s|
  {
    if s == [] then []
    else if IsTagStart(s) then StripTags(s[TagLength(s)..])
    else [s[0]] + StripTags(s[1..])
  }

  /** After tag removal no tag is left: the surviving `<` are not followed by a tag body. */
  lemma {:induction false} StripTagsNoTags(s: string)
    ensures NoTags(StripTags(s))
    decreases |s|
  {
    if s != [] {
      if IsTagStart(s) {
        StripTagsNoTags(s[TagLength(s)..]);
      } else {
        StripTagsNoTags(s[1..]);
        var big := StripTags(s[1..]);
        var r := [s[0]] + big;
        forall i | 0 <= i < |r|
          ensures !IsTagStart(r[i..])
        {
          if i > 0 {
            assert r[i..] == big[i - 1..];
          } else if s[0] == '<' && |s| >= 2 {
            if s[1] == '>' {
              assert !IsTagStart(s[1..]);
              assert big[0] == '>';
            } else {
              assert '>' !in s[2..];
              assert '>' !in s[1..] by {
                assert s[1..] == [s[1]] + s[2..];
              }
              assert '>' !in big;
              if |r| >= 2 {
                assert r[2..] == big[1..];
              }
            }
          }
        }
      }
    }
  }

  /** Text that contains no tag passes through tag removal unchanged. */
  lemma {:induction false} StripTagsNoop(s: string)
    requires NoTags(s)
    ensures StripTags(s) == s
    decreases |s|
  {
    if s != [] {
      assert s[0..] == s;
      forall i | 0 <= i < |s[1..]|
        ensures !IsTagStart(s[1..][i..])
      {
        assert s[1..][i..] == s[i + 1..];
      }
      StripTagsNoop(s[1..]);
    }
  }

  /** Text without `<` has no tags to remove. */
  lemma StripTagsNoAngle(s: string)
    requires '<' !in s
    ensures StripTags(s) == s
  {
    assert NoTags(s) by {
      forall i | 0 <= i < |s| ensures !IsTagStart(s[i..]) {
        assert s[i] != '<';
      }
    }
    StripTagsNoop(s);
  }

  /** Text before the first `<` is kept as it is, and removal continues after it. */
  lemma {:induction false} StripTagsKeepsPlain(a: string, b: string)
    requires '<' !in a
    ensures StripTags(a + b) == a + StripTags(b)
    decreases |a|
  {
    if a == [] {
      assert a + b == b;
    } else {
      var rest := a[1..];
      assert a[0] in a;
      assert '<' !in rest by {
        assert forall c :: c in rest ==> c in a;
      }
      assert a + b == [a[0]] + (rest + b);
      StripTagsCons(a[0], rest + b);
      StripTagsKeepsPlain(rest, b);
      assert [a[0]] + (rest + StripTags(b)) == a + StripTags(b);
    }
  }

  /**
   * A character that does not start a tag is kept, and removal continues after it: any
   * character other than `<`, and a `<` with no tag body after it, such as the `<` of `<>`.
   */
  lemma StripTagsCons(c: char, t: string)
    requires !IsTagStart([c] + t)
    ensures StripTags([c] + t) == [c] + StripTags(t)
  {
    assert ([c] + t)[1..] == t;
  }

  /** A `<` directly followed by `>` is not a tag: `<><b>c` becomes `<>c`. */
  lemma StripTagsEmptyBracket()
    ensures StripTags("<><b>c") == "<>c"
  {
    assert "<><b>c" == ['<'] + "><b>c";
    StripTagsCons('<', "><b>c");
    assert "><b>c" == ['>'] + "<b>c";
    StripTagsCons('>', "<b>c");
    assert "<b>c" == "<" + "b" + ">" + "c";
    StripTagsDropsTag("b", "c");
    StripTagsNoAngle("c");
  }

  /** A tag at the front, `<` then a body without `>` then `>`, is dropped whole. */
  lemma StripTagsDropsTag(t: string, b: string)
    requires t != [] && '>' !in t
    ensures StripTags("<" + t + ">" + b) == StripTags(b)
  {
    var s := "<" + t + ">" + b;
    assert s[1] == t[0];
    assert s[|t| + 1] == '>';
    assert s[2..][|t| - 1] == '>';
    assert IsTagStart(s);
    var n := TagLength(s);
    assert s[1..|t| + 1] == t;
    assert forall j :: 1 <= j < n - 1 ==> s[1..n - 1][j - 1] == s[j];
    assert forall j :: 1 <= j < |t| + 1 ==> s[1..|t| + 1][j - 1] == s[j];
    assert n == |t| + 2;
    assert s[n..] == b;
  }

  /** The text around a tag survives: `a<b>c` becomes `ac`. */
  lemma StripTagsAroundTag()
    ensures StripTags("a<b>c") == "ac"
  {
    StripTagsKeepsPlain("a", "<b>c");
    assert "a<b>c" == "a" + "<b>c";
    StripTagsDropsTag("b", "c");
    assert "<b>c" == "<" + "b" + ">" + "c";
    StripTagsNoAngle("c");
  }

  /** Removing tags twice is the same as removing them once. */
  lemma StripTagsIdempotent(s: string)
    ensures StripTags(StripTags(s)) == StripTags(s)
  {
    StripTagsNoTags(s);
    StripTagsNoop(StripTags(s));
  }

  // ----- Entity decoding and `cleanTitle` -----

  /** The five entity replacements, in their fixed order: `&amp;` first, `&gt;` last. */
  function DecodeEntities(s: string): (r: string)
    ensures |r| <= |s|
  {
    var amp := ReplaceAll(s, "&amp;", "&");
    var quot := ReplaceAll(amp, "&quot;", "\"");
    var apos := ReplaceAll(quot, "&#39;", "'");
    var lt := ReplaceAll(apos, "&lt;", "<");
    ReplaceAll(lt, "&gt;", ">")
  }

  /** Text with no `&` has nothing to decode. */
  lemma DecodeEntitiesNoop(s: string)
    requires '&' !in s
    ensures DecodeEntities(s) == s
  {
    ReplaceAllAbsent(s, "&amp;", "&");
    ReplaceAllAbsent(s, "&quot;", "\"");
    ReplaceAllAbsent(s, "&#39;", "'");
    ReplaceAllAbsent(s, "&lt;", "<");
    ReplaceAllAbsent(s, "&gt;", ">");
  }

  /**
   * `cleanTitle`: remove tags, then decode entities, then trim. The result never starts or
   * ends with whitespace and is never longer than the input.
   */
  function CleanTitle(title: string): (r: string)
    ensures r == [] || (!IsJsWhitespace(r[0]) && !IsJsWhitespace(r[|r| - 1]))
    ensures |r| <= |title|
  {
    Trim(DecodeEntities(StripTags(title)))
  }

  /** A plain headline (no markup, no entities, already trimmed) comes through unchanged. */
  lemma CleanTitlePlain(title: string)
    requires '<' !in title && '&' !in title
    requires title == [] || (!IsJsWhitespace(title[0]) && !IsJsWhitespace(title[|title| - 1]))
    ensures CleanTitle(title) == title
  {
    StripTagsNoAngle(title);
    DecodeEntitiesNoop(title);
    TrimNoop(title);
  }

  /** Cleaning an already clean title changes nothing more once it has no markup or entities left. */
  lemma CleanTitleStable(title: string)
    requires '<' !in CleanTitle(title) && '&' !in CleanTitle(title)
    ensures CleanTitle(CleanTitle(title)) == CleanTitle(title)
  {
    CleanTitlePlain(CleanTitle(title));
  }

  /** In `a + b`, an entity pattern can start in `a` only at a leading `&` whose next character differs. */
  lemma NoMatchIn(a: string, b: string, pat: string)
    requires |pat| >= 2 && pat[0] == '&'
    requires forall i :: 1 <= i < |a| ==> a[i] != '&'
    requires |a| >= 2 && a[1] != pat[1]
    ensures forall i :: 0 <= i < |a| ==> !(pat <= (a + b)[i..])
  {
    forall i | 0 <= i < |a| ensures !(pat <= (a + b)[i..]) {
      assert (a + b)[i..][0] == a[i];
      if i == 0 { assert (a + b)[i..][1] == a[1]; }
    }
  }

  /** An entity other than `&lt;`/`&gt;` leaves an escaped tag untouched. */
  lemma OtherEntityKeepsEscapedTag(x: string, pat: string, rep: string)
    requires '&' !in x
    requires |pat| >= 2 && pat[0] == '&' && pat[1] != 'l' && pat[1] != 'g'
    ensures ReplaceAll("&lt;" + x + "&gt;", pat, rep) == "&lt;" + x + "&gt;"
  {
    var a := "&lt;" + x;
    NoMatchIn(a, "&gt;", pat);
    ReplaceAllSkip(a, "&gt;", pat, rep);
    NoMatchIn("&gt;", [], pat);
    ReplaceAllSkip("&gt;", [], pat, rep);
    assert "&gt;" + [] == "&gt;";
  }

  /** Decoding an escaped tag gives the literal tag back. */
  lemma DecodeEscapedTag(x: string)
    requires '&' !in x
    ensures DecodeEntities("&lt;" + x + "&gt;") == "<" + x + ">"
  {
    OtherEntityKeepsEscapedTag(x, "&amp;", "&");
    OtherEntityKeepsEscapedTag(x, "&quot;", "\"");
    OtherEntityKeepsEscapedTag(x, "&#39;", "'");
    DecodeLt(x);
    DecodeGt(x);
  }

  /** The `&lt;` pass turns the opening escape into `<` and leaves the rest alone. */
  lemma DecodeLt(x: string)
    requires '&' !in x
    ensures ReplaceAll("&lt;" + x + "&gt;", "&lt;", "<") == "<" + x + "&gt;"
  {
    var rest := x + "&gt;";
    assert "&lt;" + x + "&gt;" == "&lt;" + rest;
    ReplaceAllAtFront("&lt;", rest, "<");
    NoAmpNoMatch(x, "&gt;", "&lt;");
    ReplaceAllSkip(x, "&gt;", "&lt;", "<");
    GtUnchangedByLt();
  }

  /** The `&lt;` pass leaves `&gt;` alone. */
  lemma GtUnchangedByLt()
    ensures ReplaceAll("&gt;", "&lt;", "<") == "&gt;"
  {
    NoMatchIn("&gt;", [], "&lt;");
    ReplaceAllSkip("&gt;", [], "&lt;", "<");
    assert "&gt;" + [] == "&gt;";
  }

  /** No entity match starts inside text without `&`. */
  lemma NoAmpNoMatch(a: string, b: string, pat: string)
    requires pat != [] && pat[0] == '&' && '&' !in a
    ensures forall i :: 0 <= i < |a| ==> !(pat <= (a + b)[i..])
  {
    forall i | 0 <= i < |a| ensures !(pat <= (a + b)[i..]) {
      assert (a + b)[i..][0] == a[i];
    }
  }

  /** The `&gt;` pass turns the closing escape into `>`. */
  lemma DecodeGt(x: string)
    requires '&' !in x
    ensures ReplaceAll("<" + x + "&gt;", "&gt;", ">") == "<" + x + ">"
  {
    var a := "<" + x;
    assert '&' !in a;
    NoAmpNoMatch(a, "&gt;", "&gt;");
    ReplaceAllSkip(a, "&gt;", "&gt;", ">");
    assert ReplaceAll("&gt;", "&gt;", ">") == ">";
  }

  /**
   * Tags are removed before entities are decoded, so an escaped tag survives as literal text:
   * `&lt;` + x + `&gt;` becomes `<` + x + `>`.
   */
  lemma CleanTitleKeepsEscapedTags(x: string)
    requires '&' !in x && '<' !in x
    ensures CleanTitle("&lt;" + x + "&gt;") == "<" + x + ">"
  {
    EscapedTagNoAngle(x);
    StripTagsNoAngle("&lt;" + x + "&gt;");
    DecodeEscapedTag(x);
    LiteralTagTrimmed(x);
  }

  /** An escaped tag contains no `<` for tag removal to act on. */
  lemma EscapedTagNoAngle(x: string)
    requires '<' !in x
    ensures '<' !in "&lt;" + x + "&gt;"
  {
    assert '<' !in "&lt;" && '<' !in "&gt;";
  }

  /** A literal tag starts with `<` and ends with `>`, so trimming keeps it whole. */
  lemma LiteralTagTrimmed(x: string)
    ensures Trim("<" + x + ">") == "<" + x + ">"
  {
    var literal := "<" + x + ">";
    assert literal[0] == '<' && literal[|literal| - 1] == '>';
    TrimNoop(literal);
  }

  /** `&amp;` is decoded first, so a doubly escaped `&amp;lt;` ends up as `<`. */
  lemma CleanTitleDecodesAmpFirst()
    ensures CleanTitle("&amp;lt;") == "<"
  {
    StripTagsNoAngle("&amp;lt;");
    DecodeAmpThenLt();
    TrimNoop("<");
  }

  /** Entity decoding of `&amp;lt;`: the `&amp;` pass yields `&lt;`, which the later `&lt;` pass decodes. */
  lemma DecodeAmpThenLt()
    ensures DecodeEntities("&amp;lt;") == "<"
  {
    ReplaceAllAbsent("lt;", "&amp;", "&");
    assert ReplaceAll("&amp;lt;", "&amp;", "&") == "&lt;";
    ReplaceAllAbsent("lt;", "&quot;", "\"");
    assert ReplaceAll("&lt;", "&quot;", "\"") == "&lt;";
    ReplaceAllAbsent("lt;", "&#39;", "'");
    assert ReplaceAll("&lt;", "&#39;", "'") == "&lt;";
    assert ReplaceAll("&lt;", "&lt;", "<") == "<";
    ReplaceAllAbsent("<", "&gt;", ">");
  }

  // ----- `fetchFeed` -----

  /** The response is usable: HTTP ok, a decoded body, and `status === 'ok'`. */
  predicate Accepted(response: FeedResponse) {
    response.ok && response.payload.Some? && response.payload.value.status == "ok"
  }

  /** The per-item mapping of `fetchFeed`. */
  function NormaliseItem(raw: RawItem): (item: FeedItem)
    requires raw.title.Some?
    ensures item.title == CleanTitle(raw.title.value)
    ensures item.link == raw.link && item.pubDate == raw.pubDate
    ensures raw.description.None? ==> item.description == ""
    ensures raw.description.Some? ==> item.description == raw.description.value
  {
    FeedItem(CleanTitle(raw.title.value), raw.link, raw.pubDate, raw.description.GetOr(""))
  }

  /**
   * `fetchFeed`'s result for one response: `None` (the `null` it returns after catching) when
   * the response is rejected or when cleaning a missing title throws; otherwise one normalised
   * item per raw item, in order.
   */
  function FetchFeed(response: FeedResponse): (r: Option<seq<FeedItem>>)
    ensures r.Some? <==> (Accepted(response)
      && forall i :: 0 <= i < |response.payload.value.items| ==> response.payload.value.items[i].title.Some?)
    ensures r.Some? ==> |r.value| == |response.payload.value.items|
    ensures r.Some? ==> forall i :: 0 <= i < |r.value| ==>
      var raw := response.payload.value.items[i];
      && r.value[i].title == CleanTitle(raw.title.value)
      && r.value[i].link == raw.link
      && r.value[i].pubDate == raw.pubDate
      && r.value[i].description == raw.description.GetOr("")
  {
    if !Accepted(response) then None
    else
      var items := response.payload.value.items;
      if exists i :: 0 <= i < |items| && items[i].title.None? then None
      else Some(seq(|items|, i requires 0 <= i < |items| => NormaliseItem(items[i])))
  }
}
