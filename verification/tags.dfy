/** Parsing of the save dialog's tag field (content.js, save handler):
    the field is trimmed; a blank field gives no tags, otherwise it is split
    on commas, each piece trimmed, and empty pieces dropped. */
module Tags {
  import opened Text

  /** A well-formed tag: non-empty with no whitespace at either end. */
  predicate IsTag(t: string) {
    t != [] && IsTrimmed(t)
  }

  /** `.map(t => t.trim()).filter(t => t)` over the comma-separated pieces. */
  function CleanTokens(tokens: seq<string>): (r: seq<string>)
    ensures |r| <= |tokens|
  {
    if tokens == [] then [] else CleanToken(tokens[0]) + CleanTokens(tokens[1..])
  }

  /** What one piece contributes: its trimmed form, unless that is empty. */
  function CleanToken(token: string): (r: seq<string>)
    ensures |r| <= 1
  {
    var t := Trim(token);
    if t == [] then [] else [t]
  }

  lemma {:induction false} CleanTokensCons(h: string, rest: seq<string>)
    ensures CleanTokens([h] + rest) == CleanToken(h) + CleanTokens(rest)
  {
    assert ([h] + rest)[1..] == rest;
  }

  /** The tags of a tag-field value. */
  function ParseTags(input: string): (r: seq<string>)
    ensures IsBlank(input) ==> r == []
    ensures forall i :: 0 <= i < |r| ==> IsTag(r[i])
    ensures |r| <= |Split(input, ',')|
  {
    var t := Trim(input);
    TrimEmptyIffBlank(input);
    if t == [] then []
    else
      ParseTagsIgnoresOuterTrim(input);
      CleanTokensAreTags(Split(t, ','));
      CleanTokens(Split(t, ','))
  }

  /** Every cleaned token is a well-formed tag. */
  lemma {:induction false} CleanTokensAreTags(tokens: seq<string>)
    ensures forall i :: 0 <= i < |CleanTokens(tokens)| ==> IsTag(CleanTokens(tokens)[i])
    decreases |tokens|
  {
    if tokens != [] {
      TrimIsTrimmed(tokens[0]);
      CleanTokensAreTags(tokens[1..]);
    }
  }

  /** Cleaning is piecewise: the tags of two token runs are the tags of the
      first followed by the tags of the second, so token order is kept. */
  lemma {:induction false} CleanTokensAppend(a: seq<string>, b: seq<string>)
    ensures CleanTokens(a + b) == CleanTokens(a) + CleanTokens(b)
    decreases |a|
  {
    if a == [] {
      assert a + b == b;
    } else {
      var h, t := a[0], a[1..];
      assert a + b == [h] + (t + b);
      assert a == [h] + t;
      CleanTokensAppend(t, b);
      CleanTokensCons(h, t + b);
      CleanTokensCons(h, t);
    }
  }

  /** Tokens that are already tags come through unchanged, duplicates
      included. */
  lemma {:induction false} CleanTokensOfTags(ts: seq<string>)
    requires forall i :: 0 <= i < |ts| ==> IsTag(ts[i])
    ensures CleanTokens(ts) == ts
    decreases |ts|
  {
    if ts != [] {
      var t, rest := ts[0], ts[1..];
      assert IsTag(t);
      assert forall i :: 0 <= i < |rest| ==> IsTag(rest[i]);
      TagTrimsToItself(t);
      CleanTokensOfTags(rest);
      CleanTokensKeepsTag(t, rest);
      assert [t] + rest == ts;
    }
  }

  lemma {:induction false} TagTrimsToItself(t: string)
    requires IsTag(t)
    ensures Trim(t) == t
  {
    TrimTrimmed(t);
  }

  lemma {:induction false} CleanTokensKeepsTag(t: string, rest: seq<string>)
    requires Trim(t) == t && t != []
    ensures CleanTokens([t] + rest) == [t] + CleanTokens(rest)
  {
    assert ([t] + rest)[1..] == rest;
  }

  /** Only a token's trimmed form matters to what it contributes. */
  lemma {:induction false} CleanTokensSameTrim(x: string, y: string, rest: seq<string>)
    requires Trim(x) == Trim(y)
    ensures CleanTokens([x] + rest) == CleanTokens([y] + rest)
  {
    assert ([x] + rest)[1..] == rest;
    assert ([y] + rest)[1..] == rest;
  }

  /** Blank padding on the first or the last token changes nothing. */
  lemma {:induction false} CleanTokensPadFirst(a: string, p: seq<string>)
    requires IsBlank(a) && |p| >= 1
    ensures CleanTokens([a + p[0]] + p[1..]) == CleanTokens(p)
  {
    TrimBlankPrefix(a, p[0]);
    CleanTokensSameTrim(a + p[0], p[0], p[1..]);
    assert [p[0]] + p[1..] == p;
  }

  lemma {:induction false} CleanTokensSameTrimLast(pre: seq<string>, x: string, y: string)
    requires Trim(x) == Trim(y)
    ensures CleanTokens(pre + [x]) == CleanTokens(pre + [y])
  {
    CleanTokensSameTrim(x, y, []);
    assert [x] + [] == [x];
    assert [y] + [] == [y];
    CleanTokensAppend(pre, [x]);
    CleanTokensAppend(pre, [y]);
  }

  lemma {:induction false} CleanTokensPadLast(p: seq<string>, b: string)
    requires IsBlank(b) && |p| >= 1
    ensures CleanTokens(p[..|p| - 1] + [p[|p| - 1] + b]) == CleanTokens(p)
  {
    var n := |p| - 1;
    assert p == p[..n] + [p[n]];
    TrimBlankSuffix(p[n], b);
    CleanTokensSameTrimLast(p[..n], p[n] + b, p[n]);
  }

  lemma {:induction false} NoCommaInBlank(s: string)
    requires IsBlank(s)
    ensures ',' !in s
  {
    assert !IsSpace(',');
    assert forall i :: 0 <= i < |s| ==> s[i] != ',';
  }

  /** Trimming the whole field first changes nothing: the tags are the
      trimmed, non-empty comma-separated pieces of the raw field. */
  lemma {:induction false} ParseTagsIgnoresOuterTrim(input: string)
    ensures (var t := Trim(input); t == [] || CleanTokens(Split(t, ',')) == CleanTokens(Split(input, ',')))
  {
    var t := Trim(input);
    if t != [] {
      var a, b := TrimParts(input);
      NoCommaInBlank(a);
      NoCommaInBlank(b);
      assert input == a + (t + b);
      var p := Split(t, ',');
      SplitSuffix(t, b, ',');
      var q := Split(t + b, ',');
      SplitPrefix(a, t + b, ',');
      CleanTokensPadFirst(a, q);
      CleanTokensPadLast(p, b);
    }
  }

  /** A blank field, and a field of commas and blanks, gives no tags; in
      general the tags are exactly the trimmed non-empty pieces, in order. */
  lemma {:induction false} ParseTagsPieces(input: string)
    ensures ParseTags(input) == CleanTokens(Split(input, ','))
  {
    ParseTagsIgnoresOuterTrim(input);
    if Trim(input) == [] {
      TrimEmptyIffBlank(input);
      NoCommaInBlank(input);
      SplitPrefix(input, [], ',');
      assert input + [] == input;
      assert Split(input, ',') == [input];
    }
  }

  /** Writing tags joined by commas and reading them back gives the same
      tags, in the same order and with repeats kept. */
  lemma {:induction false} ParseTagsOfJoined(ts: seq<string>)
    requires |ts| >= 1
    requires forall i :: 0 <= i < |ts| ==> IsTag(ts[i]) && ',' !in ts[i]
    ensures ParseTags(Join(ts, ",")) == ts
  {
    ParseTagsPieces(Join(ts, ","));
    SplitJoin(ts, ',');
    CleanTokensOfTags(ts);
  }

  /** The worked example: `"a, b ,, c"` gives `["a", "b", "c"]`. */
  lemma {:induction false} ParseTagsExample()
    ensures ParseTags("a, b ,, c") == ["a", "b", "c"]
  {
    var parts := ["a", " b ", "", " c"];
    assert Join(parts, ",") == "a, b ,, c";
    SplitJoin(parts, ',');
    ParseTagsPieces("a, b ,, c");
    ExampleTokens();
  }

  lemma {:induction false} ExampleTokens()
    ensures CleanTokens(["a", " b ", "", " c"]) == ["a", "b", "c"]
  {
    ExamplePieceA();
    ExamplePieceB();
    ExamplePieceC();
    TrimTrimmed("");
    CleanTokensCons(" c", []);
    CleanTokensCons("", [" c"]);
    CleanTokensCons(" b ", ["", " c"]);
    CleanTokensCons("a", [" b ", "", " c"]);
  }

  lemma {:induction false} ExamplePieceA()
    ensures CleanToken("a") == ["a"]
  {
    TrimTrimmed("a");
  }

  lemma {:induction false} ExamplePieceB()
    ensures CleanToken(" b ") == ["b"]
  {
    assert " " + "b " == " b ";
    assert "b" + " " == "b ";
    TrimBlankPrefix(" ", "b ");
    TrimBlankSuffix("b", " ");
    TrimTrimmed("b");
  }

  lemma {:induction false} ExamplePieceC()
    ensures CleanToken(" c") == ["c"]
  {
    assert " " + "c" == " c";
    TrimBlankPrefix(" ", "c");
    TrimTrimmed("c");
  }
}
