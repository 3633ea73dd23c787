/**
 * The `CodeBlock` component (src/components/CodeBlock.tsx): sends a
 * code-synthesis prompt to the text-generation call and keeps the first
 * fenced code block of the reply, or the whole reply when it has none.
 */
module CodeBlock {
  import opened Wrappers
  import opened Text
  import opened SeqOps
  import opened Generation

  /** The sentinel shown when the generation call fails. */
  const CodeError := "An error occurred while generating the code."

  /** The two things the pattern looks for: a run of three backticks, and a newline. */
  datatype Marker = Backticks | Newline

  /** `mk` occurs in `text` starting at index `k`. */
  predicate MarkerAt(text: string, mk: Marker, k: nat)
  {
    match mk
    case Backticks => k + 3 <= |text| && text[k] == '`' && text[k + 1] == '`' && text[k + 2] == '`'
    case Newline => k < |text| && text[k] == '\n'
  }

  /** The first index at or after `from` where `mk` occurs, if any. */
  function FirstFrom(text: string, mk: Marker, from: nat): (r: Option<nat>)
    ensures r.Some? ==> from <= r.value && MarkerAt(text, mk, r.value)
    ensures r.Some? ==> forall k :: from <= k < r.value ==> !MarkerAt(text, mk, k)
    ensures r.None? ==> forall k :: from <= k ==> !MarkerAt(text, mk, k)
    decreases |text| - from
  {
    if from >= |text| then None
    else if MarkerAt(text, mk, from) then Some(from)
    else FirstFrom(text, mk, from + 1)
  }

  /** The text a marker stands for: "```" or "\n". */
  function MarkerText(mk: Marker): string
  {
    match mk
    case Backticks => "```"
    case Newline => "\n"
  }

  /** A marker occurs at `k` exactly when its text occurs there. */
  lemma MarkerIsOccurrence(text: string, mk: Marker, k: nat)
    ensures MarkerAt(text, mk, k) <==> OccursAt(text, MarkerText(mk), k)
  {
    var pat := MarkerText(mk);
    if k + |pat| <= |text| {
      var w := text[k..k + |pat|];
      assert forall j :: 0 <= j < |pat| ==> w[j] == text[k + j];
    }
  }

  /** The marker search is `indexOf` of the marker's text: `text.indexOf("```", from)` or `text.indexOf("\n", from)`. */
  lemma FirstFromIsIndexOf(text: string, mk: Marker, from: nat)
    ensures FirstFrom(text, mk, from) == IndexOf(text, MarkerText(mk), from)
  {
    var a, b := FirstFrom(text, mk, from), IndexOf(text, MarkerText(mk), from);
    forall k | from <= k
      ensures MarkerAt(text, mk, k) <==> OccursAt(text, MarkerText(mk), k)
    {
      MarkerIsOccurrence(text, mk, k);
    }
    if a.Some? && b.Some? {
      assert !(a.value < b.value) && !(b.value < a.value);
    }
  }

  /** Searching a longer text finds the same first occurrence when the prefix already has one. */
  lemma {:induction false} FirstFromExtend(text: string, rest: string, mk: Marker, from: nat)
    requires FirstFrom(text, mk, from).Some?
    ensures FirstFrom(text + rest, mk, from) == FirstFrom(text, mk, from)
    decreases |text| - from
  {
    if !MarkerAt(text, mk, from) {
      FirstFromExtend(text, rest, mk, from + 1);
    }
  }

  /**
   * Where the pattern /```[\s\S]*?\n([\s\S]*?)```/ can match: the opening
   * fence at `open`, a newline at `newline` somewhere after it, and the
   * closing fence at `close` somewhere after that newline. The captured
   * group is `text[newline + 1..close]`.
   */
  datatype Fence = Fence(open: nat, newline: nat, close: nat)

  predicate IsMatch(text: string, f: Fence)
  {
    && MarkerAt(text, Backticks, f.open)
    && f.open + 3 <= f.newline
    && MarkerAt(text, Newline, f.newline)
    && f.newline + 1 <= f.close
    && MarkerAt(text, Backticks, f.close)
  }

  /**
   * The order in which a backtracking regex engine tries the matches: the
   * leftmost start first, then (both quantifiers being lazy) the earliest
   * newline, then the earliest closing fence.
   */
  predicate Precedes(f: Fence, g: Fence)
  {
    || f.open < g.open
    || (f.open == g.open && f.newline < g.newline)
    || (f.open == g.open && f.newline == g.newline && f.close <= g.close)
  }

  /**
   * `generatedText.match(codeRegex)`: the match the engine reports, which
   * is the first of all matches in the engine's order, or none.
   */
  function FindFence(text: string): (r: Option<Fence>)
    ensures r.Some? ==> IsMatch(text, r.value)
  {
    match FirstFrom(text, Backticks, 0)
    case None => None
    case Some(p) =>
      match FirstFrom(text, Newline, p + 3)
      case None => None
      case Some(q) =>
        match FirstFrom(text, Backticks, q + 1)
        case None => None
        case Some(r) => Some(Fence(p, q, r))
  }

  /**
   * The search finds what the regex engine reports: the first match in
   * the engine's order when there is a match, and nothing otherwise.
   */
  lemma FindFenceIsFirstMatch(text: string)
    ensures FindFence(text).Some? ==> forall m :: IsMatch(text, m) ==> Precedes(FindFence(text).value, m)
    ensures FindFence(text).None? ==> forall m :: !IsMatch(text, m)
  {
  }

  /**
   * `match ? match[1].trim() : generatedText`: the trimmed body of the
   * first fenced block, or the reply verbatim when the pattern does not
   * match.
   */
  function ExtractCode(text: string): (code: string)
    ensures |code| <= |text|
  {
    match FindFence(text)
    case Some(f) => Trim(text[f.newline + 1..f.close])
    case None => text
  }

  /** Without a fenced block the reply is returned verbatim, untrimmed. */
  lemma NoFenceVerbatim(text: string)
    requires forall m :: !IsMatch(text, m)
    ensures ExtractCode(text) == text
  {
    FindFenceIsFirstMatch(text);
  }

  /**
   * With a fenced block the result is the trimmed group of the match the
   * regex engine reports: the first match in the engine's order.
   */
  lemma FirstMatchExtracted(text: string, m: Fence)
    requires IsMatch(text, m)
    requires forall m' :: IsMatch(text, m') ==> Precedes(m, m')
    ensures ExtractCode(text) == Trim(text[m.newline + 1..m.close])
  {
    FindFenceIsFirstMatch(text);
    assert FindFence(text).Some?;
    var f := FindFence(text).value;
    assert Precedes(f, m) && Precedes(m, f);
    assert f == m;
    assert FindFence(text) == Some(m);
  }

  /** Only the first fenced block is found: whatever follows it plays no part. */
  lemma FirstBlockFound(text: string, rest: string)
    requires FindFence(text).Some?
    ensures FindFence(text + rest) == FindFence(text)
  {
    var f := FindFence(text).value;
    FirstFromExtend(text, rest, Backticks, 0);
    FirstFromExtend(text, rest, Newline, f.open + 3);
    FirstFromExtend(text, rest, Backticks, f.newline + 1);
  }

  /** Only the first fenced block is extracted: appending text after it changes nothing. */
  lemma FirstBlockOnly(text: string, rest: string)
    requires FindFence(text).Some?
    ensures ExtractCode(text + rest) == ExtractCode(text)
  {
    var f := FindFence(text).value;
    FirstBlockFound(text, rest);
    assert (text + rest)[f.newline + 1..f.close] == text[f.newline + 1..f.close];
  }

  /** The first occurrence at or after `from` is the one at `x` when nothing comes between. */
  lemma FirstFromIs(text: string, mk: Marker, from: nat, x: nat)
    requires from <= x && MarkerAt(text, mk, x)
    requires forall k :: from <= k < x ==> !MarkerAt(text, mk, k)
    ensures FirstFrom(text, mk, from) == Some(x)
  {
  }

  /** Where the three markers sit in a text laid out, character by character, as in `FencedBlockExtracted`. */
  lemma FencedLayout(text: string, pre: string, tag: string, body: string)
    requires forall k :: 0 <= k < |pre| ==> !MarkerAt(pre + "```", Backticks, k)
    requires '\n' !in tag
    requires forall k :: 0 <= k < |body| ==> !MarkerAt(body + "```", Backticks, k)
    requires |pre| + |tag| + |body| + 7 <= |text|
    requires forall i :: 0 <= i < |pre| + 3 ==> text[i] == (pre + "```")[i]
    requires forall i :: 0 <= i < |tag| ==> text[|pre| + 3 + i] == tag[i]
    requires text[|pre| + 3 + |tag|] == '\n'
    requires forall i :: 0 <= i < |body| + 3 ==> text[|pre| + 4 + |tag| + i] == (body + "```")[i]
    ensures var q := |pre| + 3 + |tag|; FindFence(text) == Some(Fence(|pre|, q, q + 1 + |body|))
  {
    var opening, closing := pre + "```", body + "```";
    var p := |pre|;
    var q := p + 3 + |tag|;
    var r := q + 1 + |body|;
    forall k | 0 <= k < p ensures !MarkerAt(text, Backticks, k) {
      assert !MarkerAt(opening, Backticks, k);
      assert text[k] == opening[k] && text[k + 1] == opening[k + 1] && text[k + 2] == opening[k + 2];
    }
    assert MarkerAt(text, Backticks, p) by {
      assert text[p] == opening[p] && text[p + 1] == opening[p + 1] && text[p + 2] == opening[p + 2];
    }
    forall k | p + 3 <= k < q ensures !MarkerAt(text, Newline, k) {
      assert text[k] == tag[k - p - 3];
    }
    forall k | q + 1 <= k < r ensures !MarkerAt(text, Backticks, k) {
      var j := k - q - 1;
      assert !MarkerAt(closing, Backticks, j);
      assert text[k] == closing[j] && text[k + 1] == closing[j + 1] && text[k + 2] == closing[j + 2];
    }
    assert MarkerAt(text, Backticks, r) by {
      var j := |body|;
      assert text[r] == closing[j] && text[r + 1] == closing[j + 1] && text[r + 2] == closing[j + 2];
    }
    FirstFromIs(text, Backticks, 0, p);
    FirstFromIs(text, Newline, p + 3, q);
    FirstFromIs(text, Backticks, q + 1, r);
  }

  /**
   * A reply laid out as `pre`, an opening fence, a language `tag`, a
   * newline, the `body`, a closing fence and anything after: when `pre`
   * holds no fence, the tag no newline, and the body no fence before the
   * closing one, the extracted code is the trimmed body. The tag and
   * everything after the first block are left out.
   */
  lemma FencedBlockExtracted(pre: string, tag: string, body: string, post: string)
    requires forall k :: 0 <= k < |pre| ==> !MarkerAt(pre + "```", Backticks, k)
    requires '\n' !in tag
    requires forall k :: 0 <= k < |body| ==> !MarkerAt(body + "```", Backticks, k)
    ensures ExtractCode(pre + "```" + tag + "\n" + body + "```" + post) == Trim(body)
  {
    var text := pre + "```" + tag + "\n" + body + "```" + post;
    var q := |pre| + 3 + |tag|;
    FencedText(pre, tag, body, post);
    FencedLayout(text, pre, tag, body);
    MiddleSlice(pre + "```" + tag + "\n", body, "```", post);
    ExtractedAt(text, Fence(|pre|, q, q + 1 + |body|));
  }

  /** Where the parts of a fenced reply sit in the whole text. */
  lemma FencedText(pre: string, tag: string, body: string, post: string)
    ensures var text, q := pre + "```" + tag + "\n" + body + "```" + post, |pre| + 3 + |tag|;
      && |pre| + |tag| + |body| + 7 <= |text|
      && (forall i :: 0 <= i < |pre| + 3 ==> text[i] == (pre + "```")[i])
      && (forall i :: 0 <= i < |tag| ==> text[|pre| + 3 + i] == tag[i])
      && text[q] == '\n'
      && (forall i :: 0 <= i < |body| + 3 ==> text[q + 1 + i] == (body + "```")[i])
  {
  }

  /** When the search finds fence `f`, the extracted code is its trimmed group. */
  lemma ExtractedAt(text: string, f: Fence)
    requires FindFence(text) == Some(f)
    ensures ExtractCode(text) == Trim(text[f.newline + 1..f.close])
  {
  }

  /** Text without backticks holds no fence before a closing fence appended to it. */
  lemma NoBackticksNoFence(s: string)
    requires '`' !in s
    ensures forall k :: 0 <= k < |s| ==> !MarkerAt(s + "```", Backticks, k)
  {
    forall k | 0 <= k < |s| ensures !MarkerAt(s + "```", Backticks, k) {
      assert (s + "```")[k] == s[k];
    }
  }

  /** The code line of the worked example, with its line break, trims to the line. */
  lemma ExampleLineTrimmed()
    ensures Trim("console.log(1)" + "\n") == "console.log(1)"
  {
    TrimLineBreak("console.log(1)");
  }

  /** The reply "intro ```js\nconsole.log(1)\n``` outro" yields "console.log(1)". */
  lemma WorkedExample()
    ensures ExtractCode("intro " + "```" + "js" + "\n" + ("console.log(1)" + "\n") + "```" + " outro") == "console.log(1)"
  {
    NoBackticksNoFence("intro ");
    NoBackticksNoFence("console.log(1)" + "\n");
    FencedBlockExtracted("intro ", "js", "console.log(1)" + "\n", " outro");
    ExampleLineTrimmed();
  }

  /**
   * The state of the code-generation tab: the description typed by the
   * user, the chosen language, the code shown, and the loading flag.
   */
  class CodeGenerator {
    var code: string
    var language: string
    var generatedCode: string
    var loading: bool

    constructor ()
      ensures code == "" && language == "javascript"
      ensures generatedCode == "" && !loading
    {
      code := "";
      language := "javascript";
      generatedCode := "";
      loading := false;
    }

    /**
     * `handleGenerateCode`: a blank description does nothing and issues no
     * call (`prompt` is `None`). Otherwise the prompt is built from the
     * language and the description, the call's `reply` decides the code
     * shown (the extracted block, or the sentinel on failure), and
     * `loading` is false again at the end either way.
     */
    method HandleGenerateCode(reply: Reply) returns (prompt: Option<string>)
      modifies this
      ensures code == old(code) && language == old(language)
      ensures Trim(code) == "" ==> prompt == None && generatedCode == old(generatedCode) && loading == old(loading)
      ensures Trim(code) != "" ==>
        && prompt == Some("Generate " + language + " code for the following description: " + code)
        && generatedCode == (if reply.Generated? then ExtractCode(reply.text) else CodeError)
        && !loading
    {
      if Trim(code) == "" {
        return None;
      }
      loading := true;
      prompt := Some("Generate " + language + " code for the following description: " + code);
      match reply {
        case Generated(text) =>
          generatedCode := ExtractCode(text);
        case Failed =>
          generatedCode := CodeError;
      }
      loading := false;
    }
  }
}
