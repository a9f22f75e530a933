/**
 * `safe_json_loads`: removes Markdown code fences from model output, trims
 * it and parses it; when parsing fails it cleans once more and parses again,
 * letting the second failure propagate. `json.loads` is an abstract parser
 * passed in as `parse`, which yields `None` where `json.loads` raises.
 */
module JsonFix {
  import opened Wrappers
  import opened Strings
  import opened Json

  const Fence := "```"

  /** The `json.JSONDecodeError` that escapes; it carries the text that was parsed. */
  datatype JsonError = JsonDecodeError(doc: string)

  /** Three backticks start at index `i`. */
  predicate FenceAt(s: string, i: int) {
    0 <= i && i + 3 <= |s| && s[i] == '`' && s[i + 1] == '`' && s[i + 2] == '`'
  }

  /** No three consecutive backticks anywhere. */
  ghost predicate FenceFree(s: string) {
    forall i :: !FenceAt(s, i)
  }

  /** After the fence at the start of `s` comes `tag`, in any letter case (`re.IGNORECASE`). */
  predicate TagFollows(s: string, tag: string) {
    |s| >= 3 + |tag| && LowerAscii(s[3..3 + |tag|]) == tag
  }

  /**
   * `re.sub(r"```<tag>|```", "", s, flags=re.IGNORECASE)`: scanning left to
   * right, deletes every tagged fence and every other fence; the alternation
   * tries the tagged fence first.
   */
  function RemoveFences(s: string, tag: string): (r: string)
    ensures |r| <= |s|
    ensures forall c :: c in r ==> c in s
    decreases |s|
  {
    if !FenceAt(s, 0) then
      if s == [] then [] else [s[0]] + RemoveFences(s[1..], tag)
    else if TagFollows(s, tag) then RemoveFences(s[3 + |tag|..], tag)
    else RemoveFences(s[3..], tag)
  }

  /**
   * No fence survives the removal, not even one formed by text on both sides
   * of a removed fence: a backtick is copied only when the next two
   * characters are not both backticks.
   */
  lemma {:induction false} RemoveFencesLeavesNoFence(s: string, tag: string)
    ensures FenceFree(RemoveFences(s, tag))
    ensures var r := RemoveFences(s, tag); |r| >= 1 && r[0] == '`' ==> |s| >= 1 && s[0] == '`'
    ensures var r := RemoveFences(s, tag); |r| >= 2 && r[0] == '`' && r[1] == '`' ==> |s| >= 2 && s[1] == '`'
    decreases |s|
  {
    if !FenceAt(s, 0) {
      if s != [] {
        var rest := RemoveFences(s[1..], tag);
        RemoveFencesLeavesNoFence(s[1..], tag);
        var r := [s[0]] + rest;
        forall i: int ensures !FenceAt(r, i) {
          assert i >= 1 ==> (FenceAt(r, i) ==> FenceAt(rest, i - 1));
          assert FenceAt(r, 0) ==> FenceAt(s, 0);
        }
      }
    } else if TagFollows(s, tag) {
      RemoveFencesLeavesNoFence(s[3 + |tag|..], tag);
    } else {
      RemoveFencesLeavesNoFence(s[3..], tag);
    }
  }

  /** Fence-free text is left as it is by fence removal. */
  lemma {:induction false} RemoveFencesFenceFree(s: string, tag: string)
    requires FenceFree(s)
    ensures RemoveFences(s, tag) == s
    decreases |s|
  {
    if s != [] {
      assert !FenceAt(s, 0);
      forall i: int ensures !FenceAt(s[1..], i) {
        assert FenceAt(s[1..], i) ==> FenceAt(s, i + 1);
      }
      RemoveFencesFenceFree(s[1..], tag);
      assert [s[0]] + s[1..] == s;
    }
  }

  /** Trimming keeps a text fence-free. */
  lemma StripFenceFree(s: string)
    requires FenceFree(s)
    ensures FenceFree(Strip(s))
  {
    var k: int := StripInfix(s);
    var r := Strip(s);
    forall i: int ensures !FenceAt(r, i) {
      assert FenceAt(r, i) ==> FenceAt(s, k + i);
    }
  }

  /** The positional "no fence" agrees with Python's `"```" not in s`. */
  lemma FenceFreeIff(s: string)
    ensures FenceFree(s) <==> !Contains(s, Fence)
  {
    ContainsIff(s, Fence);
    forall i: int ensures FenceAt(s, i) <==> OccursAt(s, Fence, i) {
      if 0 <= i && i + 3 <= |s| {
        assert s[i..i + 3] == [s[i], s[i + 1], s[i + 2]];
      }
    }
  }

  /** Text without a backtick holds no fence. */
  lemma NoBacktickFenceFree(s: string)
    requires '`' !in s
    ensures FenceFree(s)
  {
    forall i: int ensures !FenceAt(s, i) {
      assert 0 <= i < |s| ==> s[i] in s;
    }
  }

  /** A cleaning step of `safe_json_loads` with its tag: `json` before the first parse, `mermaid` before the retry. */
  function Clean(s: string, tag: string): (r: string)
    ensures FenceFree(r)
    ensures IsStripped(r)
  {
    var removed := RemoveFences(s, tag);
    RemoveFencesLeavesNoFence(s, tag);
    StripFenceFree(removed);
    Strip(removed)
  }

  /** The cleaned text contains no fence, in the sense of Python's `in`. */
  lemma CleanHasNoFence(s: string, tag: string)
    ensures !Contains(Clean(s, tag), Fence)
  {
    FenceFreeIff(Clean(s, tag));
  }

  /** Text without a backtick is only trimmed. */
  lemma CleanNoBacktick(s: string, tag: string)
    requires '`' !in s
    ensures Clean(s, tag) == Strip(s)
  {
    NoBacktickFenceFree(s);
    RemoveFencesFenceFree(s, tag);
  }

  /** Cleaning again, with any tag, returns cleaned text unchanged. */
  lemma CleanTwice(s: string, tag: string, tag': string)
    ensures Clean(Clean(s, tag), tag') == Clean(s, tag)
  {
    var c := Clean(s, tag);
    RemoveFencesFenceFree(c, tag');
    StripStripped(c);
  }

  /**
   * `safe_json_loads(text)`. The fallback re-parses exactly the text the
   * first attempt parsed, so the outcome is that of one parse of the
   * cleaned text, and a failure is reported, never a default value.
   */
  function SafeJsonLoads(parse: string -> Option<Value>, text: string): (r: Result<Value, JsonError>)
    ensures r.Success? <==> parse(Clean(text, "json")).Some?
    ensures r.Success? ==> r.value == parse(Clean(text, "json")).value
    ensures r.Failure? ==> r.error.doc == Clean(text, "json")
  {
    var cleaned := Clean(text, "json");
    match parse(cleaned)
    case Some(v) => Success(v)
    case None =>
      var cleaned' := Clean(cleaned, "mermaid");
      CleanTwice(text, "json", "mermaid");
      match parse(cleaned')
      case Some(v) => Success(v)
      case None => Failure(JsonDecodeError(cleaned'))
  }

  /**
   * Text in front of the rest is copied as it is when no fence starts inside
   * it; single or double backticks in it are kept.
   */
  lemma {:induction false} RemoveFencesPlainPrefix(x: string, y: string, tag: string)
    requires forall i :: 0 <= i < |x| ==> !FenceAt(x + y, i)
    ensures RemoveFences(x + y, tag) == x + RemoveFences(y, tag)
    decreases |x|
  {
    if x == [] {
      assert x + y == y;
    } else {
      var s := x + y;
      assert !FenceAt(s, 0);
      assert s[0] == x[0];
      assert s[1..] == x[1..] + y;
      forall i | 0 <= i < |x[1..]| ensures !FenceAt(x[1..] + y, i) {
        assert !FenceAt(s, i + 1);
      }
      RemoveFencesPlainPrefix(x[1..], y, tag);
    }
  }

  /** No fence starts inside text without a backtick, whatever follows it. */
  lemma NoBacktickNoFenceStart(x: string, y: string)
    requires '`' !in x
    ensures forall i :: 0 <= i < |x| ==> !FenceAt(x + y, i)
  {
    forall i | 0 <= i < |x| ensures !FenceAt(x + y, i) {
      assert (x + y)[i] == x[i] && x[i] in x;
    }
  }

  /** Stray backticks that start no fence are kept; the fence after them goes. */
  lemma StrayBackticks(s: string, tag: string)
    requires s == "`a```"
    ensures RemoveFences(s, tag) == "`a"
  {
    var x, y := "`a", "```";
    assert s == x + y;
    assert !FenceAt(s, 0) && !FenceAt(s, 1);
    RemoveFencesPlainPrefix(x, y, tag);
    assert FenceAt(y, 0) && y[3..] == [];
    if TagFollows(y, tag) {
      assert y[3 + |tag|..] == [];
    }
  }

  /** An opening fence tagged `json` (any letter case) is removed with its tag. */
  lemma RemoveOpeningFence(opening: string, rest: string)
    requires |opening| == 7 && FenceAt(opening, 0) && LowerAscii(opening[3..]) == "json"
    ensures RemoveFences(opening + rest, "json") == RemoveFences(rest, "json")
  {
    var s := opening + rest;
    assert s[3..7] == opening[3..];
    assert FenceAt(s, 0) && TagFollows(s, "json");
    assert s[7..] == rest;
  }

  /** A fence not followed by the tag is removed on its own. */
  lemma RemoveBareFence(s: string, tag: string)
    requires FenceAt(s, 0) && !TagFollows(s, tag)
    ensures RemoveFences(s, tag) == RemoveFences(s[3..], tag)
  {
  }

  /** Text that does not begin with the tag does not make a fence in front of it a tagged one. */
  lemma UntaggedAfterFence(rest: string, tag: string)
    requires |rest| < |tag| || LowerAscii(rest[..|tag|]) != tag
    ensures !TagFollows(Fence + rest, tag)
  {
    var s := Fence + rest;
    if |rest| >= |tag| {
      assert s[3..3 + |tag|] == rest[..|tag|];
    }
  }

  /** A bare fence is removed on its own when what follows is not the tag. */
  lemma RemoveClosingFence(rest: string, tag: string)
    requires |rest| < |tag| || LowerAscii(rest[..|tag|]) != tag
    ensures RemoveFences(Fence + rest, tag) == RemoveFences(rest, tag)
  {
    UntaggedAfterFence(rest, tag);
    var s := Fence + rest;
    assert s[3..] == rest;
    assert FenceAt(s, 0);
    RemoveBareFence(s, tag);
  }

  /** A block wrapped in a `json` fence (any letter case) and a closing fence loses both fences, and nothing else. */
  lemma RemoveFencedBlock(intro: string, opening: string, body: string, outro: string)
    requires |opening| == 7 && FenceAt(opening, 0) && LowerAscii(opening[3..]) == "json"
    requires '`' !in intro && '`' !in body && '`' !in outro
    requires |outro| < 4 || LowerAscii(outro[..4]) != "json"
    ensures RemoveFences(intro + (opening + (body + (Fence + outro))), "json") == intro + (body + outro)
  {
    var closing := Fence + outro;
    var block := body + closing;
    var fenced := opening + block;
    calc {
      RemoveFences(intro + fenced, "json");
      { NoBacktickNoFenceStart(intro, fenced); RemoveFencesPlainPrefix(intro, fenced, "json"); }
      intro + RemoveFences(fenced, "json");
      { RemoveOpeningFence(opening, block); }
      intro + RemoveFences(block, "json");
      { NoBacktickNoFenceStart(body, closing); RemoveFencesPlainPrefix(body, closing, "json"); }
      intro + (body + RemoveFences(closing, "json"));
      { RemoveClosingFence(outro, "json"); }
      intro + (body + RemoveFences(outro, "json"));
      { NoBacktickFenceFree(outro); RemoveFencesFenceFree(outro, "json"); }
      intro + (body + outro);
    }
  }

  /** The fenced block of a typical reply cleans to the bare JSON text. */
  lemma CleanFencedBlock()
    ensures Clean("```json\n{\"a\":1}\n```", "json") == "{\"a\":1}"
  {
    var x := "{\"a\":1}";
    var body := "\n" + x + "\n";
    var s := "```json\n{\"a\":1}\n```";
    assert s == "" + ("```json" + (body + (Fence + "")));
    assert LowerAscii("json") == "json";
    RemoveFencedBlock("", "```json", body, "");
    assert "" + (body + "") == body;
    StripPadded("\n", x, "\n");
  }

  /**
   * Prose around a fenced block stays: only the fences are removed and the
   * whole text is trimmed; no JSON region is extracted from it.
   */
  lemma CleanKeepsProse(intro: string, body: string, outro: string)
    requires '`' !in intro && '`' !in body && '`' !in outro
    requires |outro| < 4 || LowerAscii(outro[..4]) != "json"
    ensures Clean(intro + "```json" + body + Fence + outro, "json") == Strip(intro + body + outro)
  {
    assert LowerAscii("json") == "json";
    assert intro + "```json" + body + Fence + outro == intro + ("```json" + (body + (Fence + outro)));
    RemoveFencedBlock(intro, "```json", body, outro);
    assert intro + (body + outro) == intro + body + outro;
  }
}
