/** Reading the API group flags (main.go:93-126, 267-291). */
module GroupVersions {
  import opened Types

  const CAPI_GROUP := "cluster.x-k8s.io"
  const MAPI_GROUP := "machine.openshift.io"

  datatype GroupVersion = GroupVersion(group: string, version: string)

  /** `strings.Count(s, "/")`. */
  function Slashes(s: string): nat {
    if s == [] then 0 else (if s[0] == '/' then 1 else 0) + Slashes(s[1..])
  }

  /** `strings.Index(s, "/")` of a string that has a slash. */
  function SlashIndex(s: string): (i: nat)
    requires Slashes(s) > 0
    ensures i < |s| && s[i] == '/' && '/' !in s[..i]
  {
    if s[0] == '/' then 0
    else
      var j := SlashIndex(s[1..]);
      assert s[..j + 1] == [s[0]] + s[1..][..j];
      j + 1
  }

  /** None is the error for more than one slash. */
  function ParseGroupVersion(gv: string): Option<GroupVersion> {
    if gv == "" || gv == "/" then Some(GroupVersion("", ""))
    else if Slashes(gv) == 0 then Some(GroupVersion(gv, ""))
    else if Slashes(gv) == 1 then
      var i := SlashIndex(gv);
      Some(GroupVersion(gv[..i], gv[i + 1..]))
    else None
  }

  lemma {:induction false} SlashesOfConcat(a: string, b: string)
    ensures Slashes(a + b) == Slashes(a) + Slashes(b)
  {
    if a == [] {
      assert a + b == b;
    } else {
      SlashesOfConcat(a[1..], b);
      assert (a + b)[1..] == a[1..] + b;
    }
  }

  lemma {:induction false} NoSlashes(s: string)
    ensures Slashes(s) == 0 <==> '/' !in s
  {
    if s != [] {
      NoSlashes(s[1..]);
      assert s == [s[0]] + s[1..];
    }
  }

  lemma {:induction false} SlashIndexAfter(word: string, rest: string)
    requires '/' !in word && Slashes(word + "/" + rest) > 0
    ensures SlashIndex(word + "/" + rest) == |word|
  {
    var s := word + "/" + rest;
    var i := SlashIndex(s);
    assert s[|word|] == '/';
    assert forall k | 0 <= k < |word| :: s[k] == word[k];
    assert forall k | 0 <= k < i :: s[k] in s[..i];
  }

  /** The two ways to write a group version: with a slash, or a bare group. */
  ghost predicate Writes(s: string, gv: GroupVersion) {
    && '/' !in gv.group && '/' !in gv.version
    && (s == gv.group + "/" + gv.version || (gv.version == "" && s == gv.group))
  }

  /** Parsing inverts printing: a text parses to a group version exactly when it is one of
      that group version's two spellings. */
  lemma ParseInvertsPrint(s: string, gv: GroupVersion)
    ensures ParseGroupVersion(s) == Some(gv) <==> Writes(s, gv)
  {
    if Writes(s, gv) {
      NoSlashes(gv.group);
      NoSlashes(gv.version);
      if s == gv.group + "/" + gv.version {
        SlashesOfConcat(gv.group + "/", gv.version);
        SlashesOfConcat(gv.group, "/");
        SlashIndexAfter(gv.group, gv.version);
        assert s[..|gv.group|] == gv.group && s[|gv.group| + 1..] == gv.version;
      }
    }
    if ParseGroupVersion(s) == Some(gv) {
      NoSlashes(s);
      if s == "/" {
        assert s == "" + "/" + "";
      } else if Slashes(s) == 1 {
        var i := SlashIndex(s);
        assert s == s[..i] + "/" + s[i + 1..];
        SlashesOfConcat(s[..i] + "/", s[i + 1..]);
        SlashesOfConcat(s[..i], "/");
        NoSlashes(s[i + 1..]);
        NoSlashes(s[..i]);
      }
    }
  }

  lemma SplitAtSlash(s: string)
    requires Slashes(s) > 0
    ensures Slashes(s[SlashIndex(s) + 1..]) == Slashes(s) - 1
  {
    var i := SlashIndex(s);
    assert s == s[..i] + "/" + s[i + 1..];
    SlashesOfConcat(s[..i] + "/", s[i + 1..]);
    SlashesOfConcat(s[..i], "/");
    NoSlashes(s[..i]);
  }

  /** Parsing fails on two or more slashes and on nothing else. */
  lemma ParseFailsOnTwoSlashes(s: string)
    ensures ParseGroupVersion(s).None? <==> exists i, j | 0 <= i < j < |s| :: s[i] == '/' && s[j] == '/'
  {
    if i, j :| 0 <= i < j < |s| && s[i] == '/' && s[j] == '/' {
      assert s == s[..j] + s[j..];
      SlashesOfConcat(s[..j], s[j..]);
      NoSlashes(s[..j]);
      NoSlashes(s[j..]);
      assert s[i] in s[..j] && s[j] in s[j..];
    }
    if Slashes(s) >= 2 {
      var i := SlashIndex(s);
      SplitAtSlash(s);
      NoSlashes(s[i + 1..]);
      var j :| 0 <= j < |s[i + 1..]| && s[i + 1..][j] == '/';
      assert s[i] == '/' && s[i + 1 + j] == '/';
    }
  }

  predicate Supported(group: string) {
    group == CAPI_GROUP || group == MAPI_GROUP
  }

  /** The text spells a group version of a supported group. */
  ghost predicate Accepted(s: string) {
    exists gv :: Writes(s, gv) && Supported(gv.group)
  }

  lemma AcceptedIffParsed(s: string)
    ensures Accepted(s) <==> ParseGroupVersion(s).Some? && Supported(ParseGroupVersion(s).value.group)
    ensures ParseGroupVersion(s).Some? ==> Writes(s, ParseGroupVersion(s).value)
  {
    if gv :| Writes(s, gv) && Supported(gv.group) {
      ParseInvertsPrint(s, gv);
    }
    if ParseGroupVersion(s).Some? {
      ParseInvertsPrint(s, ParseGroupVersion(s).value);
    }
  }

  /** Texts that parse to a list are acceptable exactly when its groups are supported. */
  lemma AllAcceptedIffSupported(texts: seq<string>, all: seq<GroupVersion>)
    requires |all| == |texts| && forall i | 0 <= i < |texts| :: ParseGroupVersion(texts[i]) == Some(all[i])
    ensures (forall s | s in texts :: Accepted(s)) <==> forall i | 0 <= i < |all| :: Supported(all[i].group)
    ensures forall i | 0 <= i < |texts| :: Writes(texts[i], all[i])
  {
    forall i | 0 <= i < |texts|
      ensures Writes(texts[i], all[i]) && (Accepted(texts[i]) <==> Supported(all[i].group))
      ensures texts[i] in texts
    {
      AcceptedIffParsed(texts[i]);
    }
  }

  /** The first loop over the flags: None is the fatal error of a text that does not parse. */
  method ParseAll(texts: seq<string>) returns (all: Option<seq<GroupVersion>>)
    ensures all.Some? ==> |all.value| == |texts| && forall i | 0 <= i < |texts| :: ParseGroupVersion(texts[i]) == Some(all.value[i])
    ensures all.None? ==> exists s | s in texts :: !Accepted(s)
  {
    var parsed: seq<GroupVersion> := [];
    for i := 0 to |texts|
      invariant |parsed| == i
      invariant forall k | 0 <= k < i :: ParseGroupVersion(texts[k]) == Some(parsed[k])
    {
      AcceptedIffParsed(texts[i]);
      var gv := ParseGroupVersion(texts[i]);
      if gv.None? {
        assert texts[i] in texts;
        return None;
      }
      parsed := parsed + [gv.value];
    }
    return Some(parsed);
  }

  /** The second loop over the flags: a group that is not supported is fatal. */
  method AllSupported(all: seq<GroupVersion>) returns (valid: bool)
    ensures valid <==> forall i | 0 <= i < |all| :: Supported(all[i].group)
  {
    for i := 0 to |all|
      invariant forall k | 0 <= k < i :: Supported(all[k].group)
    {
      if !Supported(all[i].group) {
        return false;
      }
    }
    return true;
  }

  /** From the two flags to the list of group versions to watch; None is a fatal error.
      `apiGroup` is the deprecated flag, empty when not given. */
  method ReadFlags(apiGroup: string, apiGroupVersions: seq<string>) returns (parsed: Option<seq<GroupVersion>>)
    ensures parsed.Some? <==>
            if apiGroup != "" then apiGroupVersions == [] && Supported(apiGroup)
            else forall s | s in apiGroupVersions :: Accepted(s)
    ensures parsed.Some? && apiGroup != "" ==> parsed.value == [GroupVersion(apiGroup, "")]
    ensures parsed.Some? && apiGroup == "" && apiGroupVersions == [] ==> parsed.value == [GroupVersion("machine.openshift.io", "")]
    ensures parsed.Some? && apiGroup == "" && apiGroupVersions != [] ==>
              |parsed.value| == |apiGroupVersions| && forall i | 0 <= i < |apiGroupVersions| :: Writes(apiGroupVersions[i], parsed.value[i])
    ensures parsed.Some? ==> parsed.value != [] && forall i | 0 <= i < |parsed.value| :: Supported(parsed.value[i].group)
  {
    if apiGroup != "" && |apiGroupVersions| > 0 {
      return None;
    }
    var all: seq<GroupVersion> := [];
    if |apiGroupVersions| > 0 {
      var read := ParseAll(apiGroupVersions);
      if read.None? {
        return None;
      }
      all := read.value;
      AllAcceptedIffSupported(apiGroupVersions, all);
    } else {
      all := [GroupVersion(MAPI_GROUP, "")];
    }
    if apiGroup != "" {
      all := [GroupVersion(apiGroup, "")];
    }
    var valid := AllSupported(all);
    if !valid {
      return None;
    }
    assert Supported(all[0].group);
    return Some(all);
  }

  /** The texts for one group: bare, or with a version after one slash. */
  ghost predicate SpellsGroup(s: string, group: string) {
    s == group || (group + "/" <= s && '/' !in s[|group| + 1..])
  }

  lemma WrittenGroups(s: string, gv: GroupVersion)
    requires Writes(s, gv)
    ensures SpellsGroup(s, gv.group)
  {
    if s == gv.group + "/" + gv.version {
      assert s[|gv.group| + 1..] == gv.version;
    }
  }

  lemma SpelledIsWritten(s: string, group: string)
    requires '/' !in group && SpellsGroup(s, group)
    ensures exists gv :: Writes(s, gv) && gv.group == group
  {
    if s == group {
      assert Writes(s, GroupVersion(group, ""));
    } else {
      assert s == group + "/" + s[|group| + 1..];
      assert Writes(s, GroupVersion(group, s[|group| + 1..]));
    }
  }

  /** Exactly the two groups are accepted, in whatever version. */
  lemma TwoGroupsAreAccepted(s: string)
    ensures Accepted(s) <==> SpellsGroup(s, "cluster.x-k8s.io") || SpellsGroup(s, "machine.openshift.io")
    ensures Supported(s) <==> s == "cluster.x-k8s.io" || s == "machine.openshift.io"
  {
    if gv :| Writes(s, gv) && Supported(gv.group) {
      WrittenGroups(s, gv);
    }
    if SpellsGroup(s, CAPI_GROUP) {
      SpelledIsWritten(s, CAPI_GROUP);
    }
    if SpellsGroup(s, MAPI_GROUP) {
      SpelledIsWritten(s, MAPI_GROUP);
    }
  }
}
