/** The pure parts of the deterministic patch builder: which paths the
    evidence allows and proposes, which of them become diff targets, how
    file texts are normalised before diffing, and the final patch text. */
module DiffBuilder {
  import opened Wrappers
  import opened Text
  import opened StringOrder

  /** The evidence bundle, as key -> text. */
  type Evidence = map<string, string>

  const FilesPrefix := "files/"
  const TxtSuffix := ".txt"
  const ProposedPrefix := "proposed/"
  const NoChangesPatch := "(no changes)\n"
  const NoAllowedPathsMessage := "DiffBuilderV1: no allowed paths (missing files/<path>.txt evidence)."

  // ---- Paths from evidence keys ----

  /** A key naming an allowed file: the files prefix, then the path, then the text suffix. */
  predicate IsFileKey(k: string) {
    StartsWith(k, FilesPrefix) && EndsWith(k, TxtSuffix)
  }

  /** Prefix and suffix never overlap, so a file key has room for both. */
  lemma FileKeyLength(k: string)
    requires IsFileKey(k)
    ensures |k| >= |FilesPrefix| + |TxtSuffix|
  {
    assert k[|k| - 4] == '.' by {
      assert k[|k| - 4..][0] == k[|k| - 4];
    }
    var j := if |k| < 10 then |k| - 4 else 0;
    assert k[j] == k[..6][j];
  }

  /** The path a file key names: the key without its prefix and suffix. */
  function FilePath(k: string): string
    requires IsFileKey(k)
  {
    FileKeyLength(k);
    k[|FilesPrefix|..|k| - |TxtSuffix|]
  }

  /** The key a path is read from, and the path read from a key: inverses. */
  lemma FileKeyRoundTrip(p: string, k: string)
    ensures IsFileKey(FilesPrefix + p + TxtSuffix) && FilePath(FilesPrefix + p + TxtSuffix) == p
    ensures IsFileKey(k) ==> FilesPrefix + FilePath(k) + TxtSuffix == k
  {
    var key := FilesPrefix + p + TxtSuffix;
    assert key[..|FilesPrefix|] == FilesPrefix;
    assert key[|key| - |TxtSuffix|..] == TxtSuffix;
    assert key[|FilesPrefix|..|key| - |TxtSuffix|] == p;
    if IsFileKey(k) {
      FileKeyLength(k);
      assert k == k[..|FilesPrefix|] + k[|FilesPrefix|..|k| - |TxtSuffix|] + k[|k| - |TxtSuffix|..];
    }
  }

  lemma ProposedKeyRoundTrip(p: string, k: string)
    ensures StartsWith(ProposedPrefix + p, ProposedPrefix) && (ProposedPrefix + p)[|ProposedPrefix|..] == p
    ensures StartsWith(k, ProposedPrefix) ==> ProposedPrefix + k[|ProposedPrefix|..] == k
  {
    assert (ProposedPrefix + p)[..|ProposedPrefix|] == ProposedPrefix;
    if StartsWith(k, ProposedPrefix) {
      assert k == k[..|ProposedPrefix|] + k[|ProposedPrefix|..];
    }
  }

  /** `_allowed_paths_from_evidence`: the paths named by `files/<path>.txt`
      keys, sorted and without duplicates. */
  method AllowedPaths(evidence: Evidence) returns (r: seq<string>)
    ensures forall p :: p in r <==> FilesPrefix + p + TxtSuffix in evidence
    ensures StrictlySorted(r)
  {
    var out: seq<string> := [];
    var keys := evidence.Keys;
    while keys != {}
      invariant keys <= evidence.Keys
      invariant forall p :: p in out ==> FilesPrefix + p + TxtSuffix in evidence
      invariant forall k :: k in evidence && k !in keys && IsFileKey(k) ==> FilePath(k) in out
      decreases |keys|
    {
      var k :| k in keys;
      if StartsWith(k, FilesPrefix) && EndsWith(k, TxtSuffix) {
        FileKeyRoundTrip("", k);
        out := out + [FilePath(k)];
      }
      keys := keys - {k};
    }
    r := SortedUnique(out);
    SortedUniqueSorted(out);
    forall p ensures p in r <==> FilesPrefix + p + TxtSuffix in evidence {
      FileKeyRoundTrip(p, "");
    }
  }

  /** `_proposed_paths_from_evidence`: the paths named by `proposed/<path>`
      keys, sorted and without duplicates. */
  method ProposedPaths(evidence: Evidence) returns (r: seq<string>)
    ensures forall p :: p in r <==> ProposedPrefix + p in evidence
    ensures StrictlySorted(r)
  {
    var out: seq<string> := [];
    var keys := evidence.Keys;
    while keys != {}
      invariant keys <= evidence.Keys
      invariant forall p :: p in out ==> ProposedPrefix + p in evidence
      invariant forall k :: k in evidence && k !in keys && StartsWith(k, ProposedPrefix) ==>
        k[|ProposedPrefix|..] in out
      decreases |keys|
    {
      var k :| k in keys;
      if StartsWith(k, ProposedPrefix) {
        ProposedKeyRoundTrip("", k);
        out := out + [k[|ProposedPrefix|..]];
      }
      keys := keys - {k};
    }
    r := SortedUnique(out);
    SortedUniqueSorted(out);
    forall p ensures p in r <==> ProposedPrefix + p in evidence {
      ProposedKeyRoundTrip(p, "");
    }
  }

  /** The proposed paths that are also allowed, in proposed order. */
  function Targets(proposed: seq<string>, allowed: seq<string>): (r: seq<string>)
    ensures forall p :: p in r <==> p in proposed && p in allowed
    ensures |r| <= |proposed|
  {
    if proposed == [] then []
    else (if proposed[0] in allowed then [proposed[0]] else []) + Targets(proposed[1..], allowed)
  }

  /** Filtering keeps the proposed order, so sorted input gives sorted targets. */
  lemma {:induction false} TargetsSorted(proposed: seq<string>, allowed: seq<string>)
    requires StrictlySorted(proposed)
    ensures StrictlySorted(Targets(proposed, allowed))
  {
    if proposed != [] {
      var rest := proposed[1..];
      assert StrictlySorted(rest) by {
        forall i, j | 0 <= i < j < |rest| ensures Less(rest[i], rest[j]) {
          assert rest[i] == proposed[i + 1] && rest[j] == proposed[j + 1];
        }
      }
      TargetsSorted(rest, allowed);
      var t := Targets(rest, allowed);
      forall y | y in t ensures Less(proposed[0], y) {
        var k :| 0 <= k < |rest| && rest[k] == y;
        assert proposed[k + 1] == y;
      }
    }
  }

  /** Lines 150-157 of `run`: the error when nothing is allowed, otherwise the
      targets to diff. */
  method PlanTargets(evidence: Evidence) returns (r: Result<seq<string>, string>)
    ensures r.Err? <==> !exists k :: k in evidence && IsFileKey(k)
    ensures r.Err? ==> r.error == NoAllowedPathsMessage
    ensures r.Ok? ==> StrictlySorted(r.value)
    ensures r.Ok? ==> forall p :: p in r.value <==>
      ProposedPrefix + p in evidence && FilesPrefix + p + TxtSuffix in evidence
  {
    var allowed := AllowedPaths(evidence);
    var proposed := ProposedPaths(evidence);
    if allowed == [] {
      assert !exists k :: k in evidence && IsFileKey(k) by {
        forall k | k in evidence ensures !IsFileKey(k) {
          if IsFileKey(k) {
            FileKeyRoundTrip("", k);
            assert false;
          }
        }
      }
      return Err(NoAllowedPathsMessage);
    }
    assert allowed[0] in allowed;
    FileKeyRoundTrip(allowed[0], "");
    TargetsSorted(proposed, allowed);
    return Ok(Targets(proposed, allowed));
  }

  // ---- Newline normalisation (lines 189-196) ----

  /** A non-empty text gains a final "\n" when it lacks one. */
  function EndWithNewline(text: string): string {
    if text != [] && !EndsWith(text, "\n") then text + "\n" else text
  }

  lemma EndWithNewlineFacts(text: string)
    ensures EndWithNewline(text) == [] <==> text == []
    ensures text != [] ==> EndsWith(EndWithNewline(text), "\n")
    ensures EndsWith(text, "\n") ==> EndWithNewline(text) == text
    ensures EndWithNewline(EndWithNewline(text)) == EndWithNewline(text)
    ensures EndWithNewline(text) == text || EndWithNewline(text) == text + "\n"
  {
    var t := text + "\n";
    assert t[|t| - 1..] == "\n";
  }

  lemma NewlineCancels(a: string, b: string)
    requires a + "\n" == b + "\n"
    ensures a == b
  {
    assert a == (a + "\n")[..|a|];
    assert b == (b + "\n")[..|b|];
  }

  /** Normalising only adds a newline to a non-empty text without one. */
  lemma NewlineAdded(text: string)
    requires EndWithNewline(text) != text
    ensures text != [] && !EndsWith(text, "\n") && EndWithNewline(text) == text + "\n"
  {
  }

  /** Texts that differ but normalise alike differ by one final newline. */
  lemma NormalisedAlike(a: string, b: string)
    requires a != b && EndWithNewline(a) == EndWithNewline(b)
    ensures (a != [] && !EndsWith(a, "\n") && b == a + "\n")
            || (b != [] && !EndsWith(b, "\n") && a == b + "\n")
  {
    EndWithNewlineFacts(a);
    EndWithNewlineFacts(b);
    if EndWithNewline(a) == a {
      NewlineAdded(b);
    } else if EndWithNewline(b) == b {
      NewlineAdded(a);
    } else {
      NewlineAdded(a);
      NewlineAdded(b);
      NewlineCancels(a, b);
    }
  }

  /** Two texts are equal after normalising exactly when they are equal or
      one is the other without its final newline. */
  lemma SameAfterNormalising(a: string, b: string)
    ensures EndWithNewline(a) == EndWithNewline(b) <==>
      a == b
      || (a != [] && !EndsWith(a, "\n") && b == a + "\n")
      || (b != [] && !EndsWith(b, "\n") && a == b + "\n")
  {
    if a != b && EndWithNewline(a) == EndWithNewline(b) {
      NormalisedAlike(a, b);
    }
    if a != [] && !EndsWith(a, "\n") && b == a + "\n" {
      EndWithNewlineFacts(a);
    }
    if b != [] && !EndsWith(b, "\n") && a == b + "\n" {
      EndWithNewlineFacts(b);
    }
  }

  /** Lines 190-196 of `run`: normalise both texts; is there anything to diff? */
  method NormalizePair(oldText: string, newText: string) returns (oldOut: string, newOut: string, changed: bool)
    ensures oldOut == EndWithNewline(oldText) && newOut == EndWithNewline(newText)
    ensures changed <==> oldOut != newOut
  {
    oldOut, newOut := oldText, newText;
    if oldOut != [] && !EndsWith(oldOut, "\n") {
      oldOut := oldOut + "\n";
    }
    if newOut != [] && !EndsWith(newOut, "\n") {
      newOut := newOut + "\n";
    }
    changed := oldOut != newOut;
  }

  // ---- The patch text (lines 159-161, 220-222) ----

  /** `"".join(parts)` */
  function Concat(parts: seq<string>): string {
    if parts == [] then "" else Concat(parts[..|parts| - 1]) + parts[|parts| - 1]
  }

  /** The text `run` writes to `changes.patch`, given the targets and the
      per-file diff parts built for them. */
  function PatchText(targets: seq<string>, parts: seq<string>): string {
    if targets == [] then NoChangesPatch
    else
      var text := Strip(Concat(parts)) + "\n";
      if Strip(text) == [] then NoChangesPatch else text
  }

  /** With no targets, or only whitespace in the parts, the patch is the
      no-changes marker; otherwise it is the stripped parts plus one newline. */
  lemma PatchTextShape(targets: seq<string>, parts: seq<string>)
    ensures targets == [] ==> PatchText(targets, parts) == NoChangesPatch
    ensures AllSpace(Concat(parts)) ==> PatchText(targets, parts) == NoChangesPatch
    ensures targets != [] && !AllSpace(Concat(parts)) ==>
      PatchText(targets, parts) == Strip(Concat(parts)) + "\n"
    ensures EndsWith(PatchText(targets, parts), "\n")
  {
    var s := Strip(Concat(parts));
    StripEmptyIff(Concat(parts));
    assert NoChangesPatch[|NoChangesPatch| - 1..] == "\n";
    assert (s + "\n")[|s + "\n"| - 1..] == "\n";
    if s == [] {
      assert s + "\n" == "\n";
      assert Strip("\n") == [] by { StripEmptyIff("\n"); }
    } else {
      StripFacts(Concat(parts));
      StripNewline(s);
    }
  }

  /** A non-empty patch text ends in exactly one newline after visible text. */
  lemma PatchTextTrimmed(targets: seq<string>, parts: seq<string>)
    requires targets != [] && !AllSpace(Concat(parts))
    ensures var r := PatchText(targets, parts);
      |r| >= 2 && r[|r| - 1] == '\n' && !IsSpace(r[0]) && !IsSpace(r[|r| - 2])
  {
    PatchTextShape(targets, parts);
    StripEmptyIff(Concat(parts));
    StripFacts(Concat(parts));
    var s := Strip(Concat(parts));
    assert (s + "\n")[0] == s[0] && (s + "\n")[|s|] == '\n' && (s + "\n")[|s| - 1] == s[|s| - 1];
  }
}
