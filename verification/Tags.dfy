/** Cleaning of tag lists, shared by hosts, logins and scope presets. */
module Tags {

  const MAX_TAG := 64
  const MAX_TAGS := 32

  /** The characters str.strip removes. */
  predicate IsSpace(c: char) {
    var u := c as int;
    || 9 <= u <= 13 || 28 <= u <= 32 || u == 0x85 || u == 0xA0 || u == 0x1680 || 0x2000 <= u <= 0x200A
    || u == 0x2028 || u == 0x2029 || u == 0x202F || u == 0x205F || u == 0x3000
  }

  /** There are twenty-nine of them. */
  lemma SpaceCodes(c: char)
    ensures IsSpace(c) <==>
      c as int in [0x9, 0xA, 0xB, 0xC, 0xD, 0x1C, 0x1D, 0x1E, 0x1F, 0x20, 0x85, 0xA0, 0x1680, 0x2000, 0x2001, 0x2002,
                   0x2003, 0x2004, 0x2005, 0x2006, 0x2007, 0x2008, 0x2009, 0x200A, 0x2028, 0x2029, 0x202F, 0x205F,
                   0x3000]
  {}

  function StripLeft(s: string): (t: string)
    ensures t == "" || !IsSpace(t[0])
    ensures |t| <= |s|
  {
    if s == "" || !IsSpace(s[0]) then s else StripLeft(s[1..])
  }

  function StripRight(s: string): (t: string)
    ensures t <= s
    ensures t == "" || !IsSpace(t[|t| - 1])
  {
    if s == "" || !IsSpace(s[|s| - 1]) then s else StripRight(s[..|s| - 1])
  }

  function Strip(s: string): (t: string)
    ensures t != "" ==> !IsSpace(t[0]) && !IsSpace(t[|t| - 1])
  {
    StripRight(StripLeft(s))
  }

  /** One tag, stripped and then cut to 64 characters. */
  function CleanTag(s: string): (t: string)
    ensures |t| <= MAX_TAG
    ensures t != "" ==> !IsSpace(t[0])
  {
    var t := Strip(s);
    if |t| > MAX_TAG then t[..MAX_TAG] else t
  }

  predicate NoRepeats(tags: seq<string>) {
    forall i, j :: 0 <= i < j < |tags| ==> tags[i] != tags[j]
  }

  /** The cleaned tags in order, without blanks and repetitions. */
  function Deduplicated(tags: seq<string>): (out: seq<string>)
    ensures forall t :: t in out ==> t != "" && |t| <= MAX_TAG && !IsSpace(t[0])
    ensures NoRepeats(out)
  {
    if tags == [] then []
    else
      var rest, t := Deduplicated(tags[..|tags| - 1]), CleanTag(tags[|tags| - 1]);
      if t == "" || t in rest then rest else rest + [t]
  }

  function Clean(tags: seq<string>): (out: seq<string>)
    ensures |out| <= MAX_TAGS
  {
    var out := Deduplicated(tags);
    if |out| > MAX_TAGS then out[..MAX_TAGS] else out
  }

  lemma CleanShape(tags: seq<string>)
    ensures forall t :: t in Clean(tags) ==> t != "" && |t| <= MAX_TAG && !IsSpace(t[0])
    ensures NoRepeats(Clean(tags))
  {
    assert Clean(tags) <= Deduplicated(tags);
  }

  /** Stripping takes spaces off both ends, and nothing else. */
  lemma StripExact(s: string) returns (k: nat)
    ensures
      var t := Strip(s);
      && k + |t| <= |s| && t == s[k..k + |t|]
      && forall i :: (0 <= i < k || k + |t| <= i < |s|) ==> IsSpace(s[i])
  {
    var left := StripLeft(s);
    k := |s| - |left|;
    StripLeftExact(s);
    StripRightExact(left);
    var t := StripRight(left);
    assert t == Strip(s);
    hide *;
    assert left == s[k..];
    assert t == left[..|t|];
    forall i | k + |t| <= i < |s| ensures IsSpace(s[i]) {
      assert s[i] == left[i - k];
    }
  }

  lemma {:induction false} StripLeftExact(s: string)
    ensures var t := StripLeft(s);
            t == s[|s| - |t|..] && forall i :: 0 <= i < |s| - |t| ==> IsSpace(s[i])
  {
    if s != "" && IsSpace(s[0]) {
      StripLeftExact(s[1..]);
      hide IsSpace;
    }
  }

  lemma {:induction false} StripRightExact(s: string)
    ensures forall i :: |StripRight(s)| <= i < |s| ==> IsSpace(s[i])
  {
    if s != "" && IsSpace(s[|s| - 1]) {
      StripRightExact(s[..|s| - 1]);
      hide IsSpace;
    }
  }

  function CleanEach(tags: seq<string>): (out: seq<string>)
    ensures |out| == |tags|
  {
    if tags == [] then [] else CleanEach(tags[..|tags| - 1]) + [CleanTag(tags[|tags| - 1])]
  }

  lemma {:induction false} CleanedAt(tags: seq<string>, i: nat)
    requires i < |tags|
    ensures
      var t := CleanEach(tags)[i];
      t <= Strip(tags[i]) && |t| == if |Strip(tags[i])| < 64 then |Strip(tags[i])| else 64
  {
    if i < |tags| - 1 {
      CleanedAt(tags[..|tags| - 1], i);
      hide CleanTag, Strip;
    }
  }

  /** The positions of what is neither blank nor a repetition. */
  ghost function FirstAt(cleaned: seq<string>): (at: seq<nat>)
    ensures forall k, m :: 0 <= k < m < |at| ==> at[k] < at[m]
    ensures forall i: nat :: i in at <==> i < |cleaned| && cleaned[i] != "" && cleaned[i] !in cleaned[..i]
  {
    if cleaned == [] then []
    else
      var n: nat := |cleaned| - 1;
      var at := FirstAt(cleaned[..n]);
      var more := at + if cleaned[n] != "" && cleaned[n] !in cleaned[..n] then [n] else [];
      FirstAtStep(cleaned, at, more);
      more
  }

  lemma FirstAtStep(cleaned: seq<string>, at: seq<nat>, more: seq<nat>)
    requires cleaned != []
    requires var n := |cleaned| - 1;
      && (forall k, m :: 0 <= k < m < |at| ==> at[k] < at[m])
      && (forall i: nat :: i in at <==> i < n && cleaned[..n][i] != "" && cleaned[..n][i] !in cleaned[..n][..i])
      && more == at + if cleaned[n] != "" && cleaned[n] !in cleaned[..n] then [n] else []
    ensures forall k, m :: 0 <= k < m < |more| ==> more[k] < more[m]
    ensures forall i: nat :: i in more <==> i < |cleaned| && cleaned[i] != "" && cleaned[i] !in cleaned[..i]
  {
    var n: nat := |cleaned| - 1;
    assert forall k :: 0 <= k < |at| ==> at[k] in at;
    forall i: nat ensures i in more <==> i < |cleaned| && cleaned[i] != "" && cleaned[i] !in cleaned[..i] {
      if i < n {
        assert cleaned[..n][..i] == cleaned[..i] && cleaned[..n][i] == cleaned[i];
      }
    }
  }

  /** A cleaned list has the first 32 of them, in their order; each is stripped and then cut to 64 characters. */
  lemma CleanExactly(tags: seq<string>)
    ensures
      var each, out := CleanEach(tags), Clean(tags);
      var at := FirstAt(each);
      && |out| == (if |at| < 32 then |at| else 32)
      && (forall k :: 0 <= k < |out| ==> at[k] < |tags| && out[k] == each[at[k]])
      && forall i :: 0 <= i < |tags| ==>
           each[i] <= Strip(tags[i]) && |each[i]| == if |Strip(tags[i])| < 64 then |Strip(tags[i])| else 64
  {
    hide Deduplicated, Strip, FirstAt, CleanEach, IsSpace;
    DeduplicatedAt(tags);
    forall i: nat | i < |tags|
      ensures CleanEach(tags)[i] <= Strip(tags[i])
      ensures |CleanEach(tags)[i]| == if |Strip(tags[i])| < 64 then |Strip(tags[i])| else 64
    {
      CleanedAt(tags, i);
    }
  }

  /** out has each cleaned tag that is not blank at its first position. */
  ghost predicate Firsts(each: seq<string>, out: seq<string>) {
    var at := FirstAt(each);
    && |at| == |out|
    && (forall k :: 0 <= k < |at| ==> at[k] < |each| && out[k] == each[at[k]])
    && forall t :: t in out <==> t != "" && t in each
  }

  lemma FirstsStep(each: seq<string>, e: string, out: seq<string>)
    requires Firsts(each, out)
    ensures Firsts(each + [e], if e == "" || e in out then out else out + [e])
  {
    var longer := each + [e];
    assert longer[..|each|] == each;
    var at, at' := FirstAt(each), FirstAt(longer);
    assert at' == at + if e != "" && e !in each then [|each| as nat] else [];
    hide FirstAt;
  }

  lemma {:induction false} DeduplicatedAt(tags: seq<string>)
    ensures Firsts(CleanEach(tags), Deduplicated(tags))
  {
    if tags != [] {
      var rest := tags[..|tags| - 1];
      DeduplicatedAt(rest);
      FirstsStep(CleanEach(rest), CleanTag(tags[|tags| - 1]), Deduplicated(rest));
      hide Firsts, CleanTag;
    }
  }

  method CleanScopeTags(tags: seq<string>) returns (out: seq<string>)
    ensures out == Clean(tags)
  {
    out := [];
    for k := 0 to |tags|
      invariant out == Deduplicated(tags[..k])
    {
      assert tags[..k + 1][..k] == tags[..k];
      var t := CleanTag(tags[k]);
      if t != "" && t !in out {
        out := out + [t];
      }
    }
    assert tags[..|tags|] == tags;
    if |out| > MAX_TAGS {
      out := out[..MAX_TAGS];
    }
  }

  lemma {:induction false} DeduplicatedEmpty(tags: seq<string>)
    ensures Deduplicated(tags) == [] <==> forall t :: t in tags ==> Strip(t) == ""
  {
    if tags != [] {
      var rest, last := tags[..|tags| - 1], tags[|tags| - 1];
      DeduplicatedEmpty(rest);
      assert forall t :: t in tags <==> t in rest || t == last;
    }
  }

  /** Nothing is left exactly when every tag is blank. */
  lemma CleanEmpty(tags: seq<string>)
    ensures Clean(tags) == [] <==> forall t :: t in tags ==> Strip(t) == ""
  {
    DeduplicatedEmpty(tags);
  }

  lemma StripKeepsFirst(s: string)
    requires s != "" && !IsSpace(s[0])
    ensures StripLeft(s) == s && Strip(s) != ""
  {
    assert Strip(s) == StripRight(s);
    FirstSurvives(s);
  }

  lemma {:induction false} FirstSurvives(s: string)
    requires s != "" && !IsSpace(s[0])
    ensures StripRight(s) != ""
  {
    if IsSpace(s[|s| - 1]) {
      FirstSurvives(s[..|s| - 1]);
    }
  }

  /** A cleaned list that is not empty does not become empty when it is cleaned again. */
  lemma CleanAgain(tags: seq<string>)
    ensures Clean(Clean(tags)) == [] <==> Clean(tags) == []
  {
    CleanShape(tags);
    CleanEmpty(Clean(tags));
    if Clean(tags) != [] {
      StripKeepsFirst(Clean(tags)[0]);
      assert Clean(tags)[0] in Clean(tags);
    }
  }

  /** Cleaning again changes nothing exactly when no cut left a trailing space. */
  lemma CleanTwice(tags: seq<string>)
    ensures Clean(Clean(tags)) == Clean(tags) <==> forall t :: t in Clean(tags) ==> !IsSpace(t[|t| - 1])
  {
    CleanShape(tags);
    var once := Clean(tags);
    if forall t :: t in once ==> !IsSpace(t[|t| - 1]) {
      assert forall t :: t in once ==> Trimmed(t);
      DeduplicatedStable(once);
    } else {
      var t :| t in once && IsSpace(t[|t| - 1]);
      DeduplicatedTrimmed(once);
      assert t !in Deduplicated(once);
      assert forall x :: x in Clean(once) ==> x in Deduplicated(once);
    }
  }

  predicate Trimmed(t: string) {
    t != "" && |t| <= MAX_TAG && !IsSpace(t[0]) && !IsSpace(t[|t| - 1])
  }

  lemma TrimmedStable(t: string)
    requires Trimmed(t)
    ensures CleanTag(t) == t
  {}

  lemma {:induction false} DeduplicatedStable(tags: seq<string>)
    requires forall t :: t in tags ==> Trimmed(t)
    requires NoRepeats(tags)
    ensures Deduplicated(tags) == tags
  {
    if tags != [] {
      hide *;
      var rest, last := tags[..|tags| - 1], tags[|tags| - 1];
      LastIsNew(tags);
      assert last in tags && forall t :: t in rest ==> t in tags;
      DeduplicatedStable(rest);
      LastDeduplicated(tags);
    }
  }

  lemma LastDeduplicated(tags: seq<string>)
    requires tags != [] && Trimmed(tags[|tags| - 1]) && tags[|tags| - 1] !in tags[..|tags| - 1]
    requires Deduplicated(tags[..|tags| - 1]) == tags[..|tags| - 1]
    ensures Deduplicated(tags) == tags
  {
    TrimmedStable(tags[|tags| - 1]);
    NotBlank(tags[|tags| - 1]);
    hide CleanTag, Trimmed;
  }

  lemma LastIsNew(tags: seq<string>)
    requires NoRepeats(tags) && tags != []
    ensures NoRepeats(tags[..|tags| - 1]) && tags[|tags| - 1] !in tags[..|tags| - 1]
  {}

  lemma NotBlank(t: string)
    requires Trimmed(t)
    ensures t != ""
  {}

  lemma {:induction false} DeduplicatedTrimmed(tags: seq<string>)
    requires forall t :: t in tags ==> |t| <= MAX_TAG
    ensures forall t :: t in Deduplicated(tags) ==> t != "" && !IsSpace(t[|t| - 1])
  {
    if tags != [] {
      var rest, last := tags[..|tags| - 1], tags[|tags| - 1];
      assert forall t :: t in rest ==> t in tags;
      DeduplicatedTrimmed(rest);
      assert last in tags && |Strip(last)| <= MAX_TAG;
    }
  }

  lemma CleanOne(tag: string)
    ensures Clean([tag]) == if CleanTag(tag) == "" then [] else [CleanTag(tag)]
  {
    hide CleanTag;
    assert [tag][..0] == [] && Deduplicated([]) == [];
    assert Deduplicated([tag]) == if CleanTag(tag) == "" then [] else [CleanTag(tag)];
  }

  lemma {:induction false} DeduplicatedKeeps(tags: seq<string>, t: string)
    requires t in tags && Trimmed(t)
    ensures t in Deduplicated(tags)
  {
    var rest, last := tags[..|tags| - 1], tags[|tags| - 1];
    TrimmedStable(t);
    NotBlank(t);
    if t in rest {
      DeduplicatedKeeps(rest, t);
    }
    hide CleanTag, Trimmed;
  }

  lemma {:induction false} DeduplicatedShort(tags: seq<string>)
    ensures |Deduplicated(tags)| <= |tags|
  {
    if tags != [] {
      DeduplicatedShort(tags[..|tags| - 1]);
    }
  }

  /** A cleaned tag survives a second cleaning exactly when it has no trailing space, and no other tag does. */
  lemma CleanAgainKeeps(tags: seq<string>)
    ensures forall t :: t in Clean(tags) ==> (t in Clean(Clean(tags)) <==> !IsSpace(t[|t| - 1]))
  {
    var once := Clean(tags);
    DeduplicatedShort(once);
    DeduplicatedTrimmed(once);
    forall t | t in once && !IsSpace(t[|t| - 1]) ensures t in Clean(once) {
      DeduplicatedKeeps(once, t);
    }
  }
}
