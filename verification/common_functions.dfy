/** The two small validators shared by the agents: the completeness test for
    company metadata and the clean-up of a model's fenced JSON reply. */
module CommonFunctions {
  import opened PyValues
  import Text

  const RequiredMetadataFields: set<string> :=
    {"company_name", "sector", "industry", "headquarters", "country", "region"}

  /** `is_valid_metadata`: the value is a dict holding every required field. */
  function IsValidMetadata(data: Value): (valid: bool)
    ensures valid <==>
      && data.Obj?
      && "company_name" in data.fields
      && "sector" in data.fields
      && "industry" in data.fields
      && "headquarters" in data.fields
      && "country" in data.fields
      && "region" in data.fields
  {
    data.Obj? && RequiredMetadataFields <= data.fields.Keys
  }

  /** Adding fields to valid metadata never makes it invalid. */
  lemma ExtraFieldsKeepMetadataValid(m: Object, extra: Object)
    requires IsValidMetadata(Obj(m))
    ensures IsValidMetadata(Obj(m + extra))
  {
  }

  /** Three backticks start at position `k` of `s`. */
  predicate FenceAt(s: string, k: nat)
    requires k + 2 < |s|
  {
    s[k] == '`' && s[k + 1] == '`' && s[k + 2] == '`'
  }

  /** No three consecutive backticks anywhere in `s`. */
  predicate NoFence(s: string) {
    forall k: nat :: k + 2 < |s| ==> !FenceAt(s, k)
  }

  /** `re.sub(r"```(?:json)?", "", s)`: scanning left to right, every
      "```" is removed together with a "json" directly after it. */
  function RemoveFences(s: string): (r: string)
    ensures NoFence(r)
    ensures |r| <= |s|
    ensures s != [] && s[0] != '`' ==> r != [] && r[0] == s[0]
    ensures |s| >= 2 && s[0] == '`' && s[1] != '`' ==> |r| >= 2 && r[0] == '`' && r[1] == s[1]
    decreases |s|
  {
    if |s| < 3 then s
    else if s[0] == '`' && s[1] == '`' && s[2] == '`' then
      if |s| >= 7 && s[3..7] == "json" then RemoveFences(s[7..]) else RemoveFences(s[3..])
    else
      var rest := RemoveFences(s[1..]);
      ConsNoFence(s[0], rest);
      [s[0]] + rest
  }

  lemma NoFenceSuffix(s: string, i: nat)
    requires NoFence(s) && i <= |s|
    ensures NoFence(s[i..])
  {
    var t := s[i..];
    forall k: nat | k + 2 < |t|
      ensures !FenceAt(t, k)
    {
      assert !FenceAt(s, i + k);
      assert t[k] == s[i + k] && t[k + 1] == s[i + k + 1] && t[k + 2] == s[i + k + 2];
    }
  }

  /** A character in front of fence-free text opens no fence unless it is a
      backtick before two more. */
  lemma ConsNoFence(c: char, rest: string)
    requires NoFence(rest)
    requires c == '`' ==> !(|rest| >= 2 && rest[0] == '`' && rest[1] == '`')
    ensures NoFence([c] + rest)
  {
    var t := [c] + rest;
    forall k: nat | k + 2 < |t|
      ensures !FenceAt(t, k)
    {
      if k > 0 {
        assert !FenceAt(rest, k - 1);
        assert t[k] == rest[k - 1] && t[k + 1] == rest[k] && t[k + 2] == rest[k + 1];
      }
    }
  }

  /** The characters `clean_json_output` strips from both ends. */
  predicate IsFenceDebris(c: char) {
    c == '`' || c == ' ' || c == '\n'
  }

  lemma NoFenceSlice(s: string, i: int, j: int)
    requires NoFence(s) && 0 <= i <= j <= |s|
    ensures NoFence(s[i..j])
  {
    var t := s[i..j];
    forall k: nat | k + 2 < |t|
      ensures !FenceAt(t, k)
    {
      assert !FenceAt(s, i + k);
      assert t[k] == s[i + k] && t[k + 1] == s[i + k + 1] && t[k + 2] == s[i + k + 2];
    }
  }

  /** Stripping debris from the front of fence-free text keeps it fence-free
      and leaves no debris in front. */
  lemma TrimStartClean(unfenced: string, left: string)
    requires NoFence(unfenced)
    requires left == Text.TrimStart(unfenced, IsFenceDebris)
    ensures NoFence(left)
    ensures left == [] || !IsFenceDebris(left[0])
  {
    var i := |unfenced| - |left|;
    assert left == unfenced[i..];
    NoFenceSuffix(unfenced, i);
  }

  /** Stripping debris from the back of fence-free text that starts with no
      debris keeps it fence-free and leaves no debris at either end. */
  lemma TrimEndClean(left: string, both: string)
    requires NoFence(left)
    requires left == [] || !IsFenceDebris(left[0])
    requires both == Text.TrimEnd(left, IsFenceDebris)
    ensures NoFence(both)
    ensures both == [] || (!IsFenceDebris(both[0]) && !IsFenceDebris(both[|both| - 1]))
  {
    NoFenceSlice(left, 0, |both|);
    assert both == left[0..|both|];
    if both != [] {
      assert both[0] == left[0];
    }
  }

  /** `strip("` \n")` applied to fence-free text: the slice left once the
      backticks, spaces and newlines around it are gone. */
  function StripDebris(unfenced: string): (both: string)
    requires NoFence(unfenced)
    ensures NoFence(both)
    ensures Text.StripOf(both, unfenced, IsFenceDebris)
  {
    var left := Text.TrimStart(unfenced, IsFenceDebris);
    TrimStartClean(unfenced, left);
    var both := Text.TrimEnd(left, IsFenceDebris);
    TrimEndClean(left, both);
    assert both == Text.Trim(unfenced, IsFenceDebris);
    both
  }

  /** `clean_json_output`: drop code fences, then strip backticks, spaces and
      newlines from both ends. */
  function CleanJsonOutput(raw: string): (cleaned: string)
    ensures NoFence(cleaned)
    ensures cleaned == [] || (!IsFenceDebris(cleaned[0]) && !IsFenceDebris(cleaned[|cleaned| - 1]))
    ensures Text.StripOf(cleaned, RemoveFences(raw), IsFenceDebris)
  {
    StripDebris(RemoveFences(raw))
  }

  /** Fence-free text that does not end in a backtick passes the fence
      removal unchanged, whatever follows it. */
  lemma {:induction false} RemoveFencesKeepsText(body: string, t: string)
    requires NoFence(body)
    requires body == [] || body[|body| - 1] != '`'
    ensures RemoveFences(body + t) == body + RemoveFences(t)
    decreases |body|
  {
    var s := body + t;
    if body == [] {
      assert s == t;
    } else if |s| < 3 {
      assert RemoveFences(s) == s && RemoveFences(t) == t;
    } else {
      if |body| >= 3 {
        assert !FenceAt(body, 0);
      } else {
        assert s[|body| - 1] == body[|body| - 1];
      }
      assert !(s[0] == '`' && s[1] == '`' && s[2] == '`');
      var tail := body[1..];
      NoFenceSuffix(body, 1);
      assert s[1..] == tail + t;
      RemoveFencesKeepsText(tail, t);
      var kept := RemoveFences(t);
      assert RemoveFences(s) == [s[0]] + RemoveFences(s[1..]);
      assert RemoveFences(s) == [body[0]] + (tail + kept);
      Text.AppendAssociates([body[0]], tail, kept);
      assert [body[0]] + tail == body;
    }
  }

  /** A closing fence after a newline leaves only the newline. */
  lemma ClosingFence()
    ensures RemoveFences("\n```") == "\n"
  {
    assert RemoveFences("```") == [];
    assert "\n```"[1..] == "```";
  }

  /** A tagged opening fence is dropped before a newline. */
  lemma OpeningTaggedFence(rest: string)
    requires rest != [] && rest[0] == '\n'
    ensures RemoveFences("```json" + rest) == RemoveFences(rest)
  {
    var tagged := "```json" + rest;
    assert tagged[3..7] == "json" && tagged[7..] == rest;
  }

  /** A bare opening fence is dropped before a newline. */
  lemma OpeningBareFence(rest: string)
    requires rest != [] && rest[0] == '\n'
    ensures RemoveFences("```" + rest) == RemoveFences(rest)
  {
    var bare := "```" + rest;
    assert bare[3..] == rest && bare[3] == '\n';
  }

  /** Between the fences, the body keeps the newline in front of it and the
      one in front of the closing fence. */
  lemma BodyBeforeClosingFence(body: string)
    requires NoFence(body)
    requires body == [] || body[|body| - 1] != '`'
    ensures RemoveFences(("\n" + body) + "\n```") == "\n" + body + "\n"
  {
    ConsNoFence('\n', body);
    RemoveFencesKeepsText("\n" + body, "\n```");
    ClosingFence();
  }

  /** Removing the fences of a fenced block leaves the text inside with the
      newline after the opening fence and the one before the closing fence. */
  lemma FencesAroundBody(body: string)
    requires NoFence(body)
    requires body == [] || body[|body| - 1] != '`'
    ensures RemoveFences("```json\n" + body + "\n```") == "\n" + body + "\n"
    ensures RemoveFences("```\n" + body + "\n```") == "\n" + body + "\n"
  {
    TaggedFenceAroundBody(body);
    BareFenceAroundBody(body);
  }

  /** `FencesAroundBody` for an opening fence tagged json. */
  lemma TaggedFenceAroundBody(body: string)
    requires NoFence(body)
    requires body == [] || body[|body| - 1] != '`'
    ensures RemoveFences("```json\n" + body + "\n```") == "\n" + body + "\n"
  {
    var inner := "\n" + body;
    BodyBeforeClosingFence(body);
    OpeningTaggedFence(inner + "\n```");
    assert "```json\n" == "```json" + "\n";
    Text.AppendAssociates("```json", "\n", body);
    Text.AppendAssociates("```json", inner, "\n```");
  }

  /** `FencesAroundBody` for a bare opening fence. */
  lemma BareFenceAroundBody(body: string)
    requires NoFence(body)
    requires body == [] || body[|body| - 1] != '`'
    ensures RemoveFences("```\n" + body + "\n```") == "\n" + body + "\n"
  {
    var inner := "\n" + body;
    BodyBeforeClosingFence(body);
    OpeningBareFence(inner + "\n```");
    assert "```\n" == "```" + "\n";
    Text.AppendAssociates("```", "\n", body);
    Text.AppendAssociates("```", inner, "\n```");
  }

  /** Text without debris at its ends is what stripping it out of two
      newlines leaves. */
  lemma NewlinesStrip(body: string)
    requires body == [] || (!IsFenceDebris(body[0]) && !IsFenceDebris(body[|body| - 1]))
    ensures Text.StripOf(body, "\n" + body + "\n", IsFenceDebris)
  {
    var padded := "\n" + body + "\n";
    assert padded[1..|body| + 1] == body;
    assert Text.StripAt(body, padded, IsFenceDebris, 1, |body| + 1);
  }

  /** A reply wrapped in a fenced JSON block, or a bare fenced block, comes
      back as the text inside the fences. */
  lemma CleanFencedReply(body: string)
    requires NoFence(body)
    requires body == [] || (!IsFenceDebris(body[0]) && !IsFenceDebris(body[|body| - 1]))
    ensures CleanJsonOutput("```json\n" + body + "\n```") == body
    ensures CleanJsonOutput("```\n" + body + "\n```") == body
  {
    var padded := "\n" + body + "\n";
    FencesAroundBody(body);
    NewlinesStrip(body);
    Text.StripOfUnique(CleanJsonOutput("```json\n" + body + "\n```"), body, padded, IsFenceDebris);
    Text.StripOfUnique(CleanJsonOutput("```\n" + body + "\n```"), body, padded, IsFenceDebris);
  }

  /** Text without fences is left alone by the fence removal. */
  lemma {:induction false} RemoveFencesUnchanged(s: string)
    requires NoFence(s)
    ensures RemoveFences(s) == s
    decreases |s|
  {
    if |s| >= 3 {
      assert !FenceAt(s, 0);
      NoFenceSlice(s, 1, |s|);
      assert s[1..|s|] == s[1..];
      RemoveFencesUnchanged(s[1..]);
    }
  }

  /** A reply that is already clean comes back unchanged. */
  lemma CleanJsonOutputUnchanged(s: string)
    requires NoFence(s)
    requires s == [] || (!IsFenceDebris(s[0]) && !IsFenceDebris(s[|s| - 1]))
    ensures CleanJsonOutput(s) == s
  {
    RemoveFencesUnchanged(s);
    Text.TrimUnchanged(s, IsFenceDebris);
  }

  /** Cleaning twice is cleaning once. */
  lemma CleanJsonOutputIdempotent(raw: string)
    ensures CleanJsonOutput(CleanJsonOutput(raw)) == CleanJsonOutput(raw)
  {
    var once := CleanJsonOutput(raw);
    assert NoFence(once);
    assert once == [] || (!IsFenceDebris(once[0]) && !IsFenceDebris(once[|once| - 1]));
    CleanJsonOutputUnchanged(once);
  }
}
