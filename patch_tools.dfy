/** Cleaning and checking the text a patch generator returns: drop Markdown
    fence lines, keep the text from the first `diff --git ` header on, end it
    with a newline; and the basic shape check applied before a patch is used. */
module PatchTools {
  import opened Wrappers
  import opened Text

  const DiffHeader := "diff --git "
  const ProseMarker := "The changes made in this patch"
  const NoDiffMessage := "No 'diff --git' found; model did not return a patch."
  const NotADiffMessage := "Patch must start with 'diff --git'."
  const ProseMessage := "Patch contains prose."
  const MarkersMessage := "Patch missing ---/+++ markers."

  datatype PatchValidationError = PatchValidationError(message: string)

  /** Whitespace inside one line. */
  predicate LineSpace(c: char) {
    IsSpace(c) && c != '\n'
  }

  /** A Markdown fence line: optional whitespace, then three backticks. On a
      line, which holds no "\n", `LineSpace` is exactly the regex class `\s`. */
  predicate IsFence(s: string)
    decreases |s|
  {
    (|s| >= 3 && s[..3] == "```") || (|s| > 0 && LineSpace(s[0]) && IsFence(s[1..]))
  }

  /** The lines that are not fence lines, in order. */
  function Unfenced(lines: seq<string>): seq<string>
  {
    if lines == [] then []
    else
      var last := lines[|lines| - 1];
      Unfenced(lines[..|lines| - 1]) + (if IsFence(last) then [] else [last])
  }

  /** The text once fence lines are removed and the ends stripped. */
  function FenceFree(raw: string): string {
    Strip(Join(Unfenced(SplitLines(Strip(raw)))))
  }

  /** What `sanitize_patch_output` returns or raises. */
  function Sanitized(raw: string): Result<string, PatchValidationError>
  {
    var t := FenceFree(raw);
    var start := IndexOf(t, DiffHeader);
    if start == -1 then Err(PatchValidationError(NoDiffMessage))
    else
      var t' := Strip(t[start..]);
      Ok(if EndsWith(t', "\n") then t' else t' + "\n")
  }

  /** `sanitize_patch_output` */
  method SanitizePatchOutput(raw: string) returns (r: Result<string, PatchValidationError>)
    ensures r == Sanitized(raw)
  {
    var t := Strip(raw);
    var all := SplitLines(t);
    var lines: seq<string> := [];
    var i := 0;
    while i < |all|
      invariant 0 <= i <= |all|
      invariant lines == Unfenced(all[..i])
    {
      var line := all[i];
      assert all[..i + 1][..i] == all[..i];
      if !IsFence(line) {
        lines := lines + [line];
      }
      i := i + 1;
    }
    assert all[..|all|] == all;
    t := Strip(Join(lines));
    var start := IndexOf(t, DiffHeader);
    if start == -1 {
      return Err(PatchValidationError(NoDiffMessage));
    }
    t := Strip(t[start..]);
    if !EndsWith(t, "\n") {
      t := t + "\n";
    }
    return Ok(t);
  }

  /** `validate_basic`: the checks in order; the first that fails names the error. */
  function ValidateBasic(patch: string): (r: Outcome<PatchValidationError>)
    ensures r.Pass? <==> StartsWith(patch, DiffHeader) && !Contains(patch, ProseMarker)
                         && Contains(patch, "\n--- ") && Contains(patch, "\n+++ ")
    ensures !StartsWith(patch, DiffHeader) ==> r == Fail(PatchValidationError(NotADiffMessage))
    ensures StartsWith(patch, DiffHeader) && Contains(patch, ProseMarker) ==>
      r == Fail(PatchValidationError(ProseMessage))
    ensures StartsWith(patch, DiffHeader) && !Contains(patch, ProseMarker)
            && !(Contains(patch, "\n--- ") && Contains(patch, "\n+++ ")) ==>
      r == Fail(PatchValidationError(MarkersMessage))
  {
    if !StartsWith(patch, DiffHeader) then Fail(PatchValidationError(NotADiffMessage))
    else if Contains(patch, ProseMarker) then Fail(PatchValidationError(ProseMessage))
    else if !Contains(patch, "\n--- ") || !Contains(patch, "\n+++ ") then Fail(PatchValidationError(MarkersMessage))
    else Pass
  }

  // ---- Fence lines at the character level ----

  /** Index `i` begins a line of `x`. */
  predicate LineStart(x: string, i: int) {
    0 <= i <= |x| && (i == 0 || x[i - 1] == '\n')
  }

  /** No line of `x` is a fence line. */
  predicate NoFence(x: string) {
    forall i | 0 <= i <= |x| :: LineStart(x, i) ==> !IsFence(x[i..])
  }

  /** No line `splitlines` yields is a fence line. */
  predicate NoFenceLines(x: string) {
    forall l :: l in SplitLines(x) ==> !IsFence(l)
  }

  lemma {:induction false} FenceExtends(s: string, t: string)
    requires IsFence(s)
    ensures IsFence(s + t)
    decreases |s|
  {
    if !(|s| >= 3 && s[..3] == "```") {
      FenceExtends(s[1..], t);
      assert (s + t)[1..] == s[1..] + t;
    } else {
      assert (s + t)[..3] == s[..3];
    }
  }

  /** Whether a text starts with a fence is decided before its first "\n". */
  lemma {:induction false} FenceStopsAtNewline(s: string, t: string)
    requires IsFence(s + "\n" + t)
    ensures IsFence(s)
    decreases |s|
  {
    var u := s + "\n" + t;
    if |s| >= 3 && u[..3] == "```" {
      assert s[..3] == u[..3];
    } else {
      if |s| < 3 {
        assert u[|s|] == '\n';
        assert !(|u| >= 3 && u[..3] == "```") by {
          if |u| >= 3 { assert u[..3][|s|] == '\n'; }
        }
      } else {
        assert u[..3] == s[..3];
      }
      assert u[0] != '\n';
      assert |s| > 0;
      assert u[1..] == s[1..] + "\n" + t;
      FenceStopsAtNewline(s[1..], t);
    }
  }

  lemma FenceStopsAtEnd(s: string)
    requires IsFence(s + "\n")
    ensures IsFence(s)
  {
    assert s + "\n" == s + "\n" + "";
    FenceStopsAtNewline(s, "");
  }

  /** A fence preceded by line whitespace is still a fence from the line's start. */
  lemma {:induction false} FenceBackward(x: string, p: nat)
    requires p <= |x| && AllSpace(x[..p]) && IsFence(x[p..])
    ensures exists q :: LineStart(x, q) && IsFence(x[q..])
    decreases p
  {
    if p == 0 || x[p - 1] == '\n' {
      assert LineStart(x, p);
    } else {
      assert x[..p][p - 1] == x[p - 1];
      assert x[p - 1..][1..] == x[p..];
      assert IsFence(x[p - 1..]);
      assert x[..p - 1] == x[..p][..p - 1];
      FenceBackward(x, p - 1);
    }
  }

  /** Dropping a prefix keeps the later line starts clean. */
  lemma NoFenceSuffix(x: string, p: nat)
    requires p <= |x| && NoFence(x) && !IsFence(x[p..])
    ensures NoFence(x[p..])
  {
    var y := x[p..];
    forall i | LineStart(y, i) ensures !IsFence(y[i..]) {
      if i > 0 {
        assert y[i - 1] == x[p + i - 1];
        assert LineStart(x, p + i);
        assert y[i..] == x[p + i..];
      }
    }
  }

  /** Dropping a suffix keeps every line start clean. */
  lemma NoFencePrefix(x: string, k: nat)
    requires k <= |x| && NoFence(x)
    ensures NoFence(x[..k])
  {
    var y := x[..k];
    forall i | LineStart(y, i) ensures !IsFence(y[i..]) {
      assert i > 0 ==> y[i - 1] == x[i - 1];
      assert LineStart(x, i);
      assert x[i..] == y[i..] + x[k..];
      if IsFence(y[i..]) { FenceExtends(y[i..], x[k..]); }
    }
  }

  lemma NoFenceStrip(x: string)
    requires NoFence(x)
    ensures NoFence(Strip(x))
  {
    var l := LStrip(x);
    LStripFacts(x);
    var p := |x| - |l|;
    if IsFence(x[p..]) {
      FenceBackward(x, p);
      assert false;
    }
    NoFenceSuffix(x, p);
    RStripFacts(l);
    NoFencePrefix(l, |RStrip(l)|);
  }

  lemma NoFenceNewline(x: string)
    requires NoFence(x)
    ensures NoFence(x + "\n")
  {
    var y := x + "\n";
    forall i | LineStart(y, i) ensures !IsFence(y[i..]) {
      if i <= |x| {
        assert i > 0 ==> y[i - 1] == x[i - 1];
        assert LineStart(x, i);
        assert y[i..] == x[i..] + "\n";
        if IsFence(y[i..]) { FenceStopsAtEnd(x[i..]); }
      } else {
        assert y[i..] == [];
      }
    }
  }

  /** Joining lines none of which is a fence gives a text with no fence line. */
  lemma {:induction false} NoFenceJoin(lines: seq<string>)
    requires forall j :: 0 <= j < |lines| ==> '\n' !in lines[j] && !IsFence(lines[j])
    ensures NoFence(Join(lines))
  {
    if |lines| == 1 {
      var l := lines[0];
      forall i | LineStart(l, i) ensures !IsFence(l[i..]) {
        assert l[0..] == l;
      }
    } else if |lines| > 1 {
      var l := lines[0];
      var rest := lines[1..];
      var j := Join(rest);
      assert forall k :: 0 <= k < |rest| ==> rest[k] == lines[k + 1];
      NoFenceJoin(rest);
      var x := Join(lines);
      assert x == l + "\n" + j;
      forall i | LineStart(x, i) ensures !IsFence(x[i..]) {
        if i == 0 {
          assert x[0..] == l + "\n" + j;
          if IsFence(x[0..]) { FenceStopsAtNewline(l, j); }
        } else if i <= |l| {
          assert false;
        } else {
          var i' := i - |l| - 1;
          assert x[i..] == j[i'..];
          assert i' > 0 ==> x[i - 1] == j[i' - 1];
          assert LineStart(j, i');
        }
      }
    }
  }

  /** A text with no fence line splits into lines none of which is a fence. */
  lemma {:induction false} NoFenceSplit(x: string)
    requires NoFence(x)
    ensures NoFenceLines(x)
    decreases |x|
  {
    if x != [] {
      var k := LineEnd(x);
      assert LineStart(x, 0) && x[0..] == x;
      if k < |x| {
        var rest := x[k + 1..];
        assert x == x[..k] + ("\n" + rest);
        if IsFence(x[..k]) {
          FenceExtends(x[..k], "\n" + rest);
          assert false;
        }
        assert LineStart(x, k + 1);
        NoFenceSuffix(x, k + 1);
        NoFenceSplit(rest);
      }
    }
  }

  lemma {:induction false} UnfencedMembers(lines: seq<string>)
    ensures forall l :: l in Unfenced(lines) ==> l in lines && !IsFence(l)
  {
    if lines != [] {
      var init := lines[..|lines| - 1];
      UnfencedMembers(init);
      assert forall l :: l in init ==> l in lines;
    }
  }

  lemma {:induction false} UnfencedKeepsAll(lines: seq<string>)
    requires forall l :: l in lines ==> !IsFence(l)
    ensures Unfenced(lines) == lines
  {
    if lines != [] {
      var init, last := lines[..|lines| - 1], lines[|lines| - 1];
      assert last in lines;
      forall l | l in init ensures !IsFence(l) {
        var k :| 0 <= k < |init| && init[k] == l;
        assert lines[k] == l;
      }
      UnfencedKeepsAll(init);
      assert Unfenced(lines) == Unfenced(init) + [last];
      assert init + [last] == lines;
    }
  }

  /** The fence-free text has no fence line. */
  lemma FenceFreeHasNoFence(raw: string)
    ensures NoFence(FenceFree(raw))
  {
    var lines := SplitLines(Strip(raw));
    var kept := Unfenced(lines);
    UnfencedMembers(lines);
    forall j | 0 <= j < |kept| ensures '\n' !in kept[j] && !IsFence(kept[j]) {
      assert kept[j] in kept;
      var m :| 0 <= m < |lines| && lines[m] == kept[j];
    }
    NoFenceJoin(kept);
    NoFenceStrip(Join(kept));
  }

  // ---- What the sanitiser promises ----

  /** It fails exactly when the fence-free text holds no diff header. */
  lemma SanitizedFailsIff(raw: string)
    ensures Sanitized(raw).Err? <==> !Contains(FenceFree(raw), DiffHeader)
    ensures Sanitized(raw).Err? ==> Sanitized(raw).error == PatchValidationError(NoDiffMessage)
  {
  }

  /** A patch body: starts with the diff header, ends in a visible character,
      and has no fence line. */
  predicate CleanBody(u: string) {
    StartsWith(u, DiffHeader) && !IsSpace(u[|u| - 1]) && NoFence(u)
  }

  /** In a text without fence lines and without whitespace at its ends, the
      part from the first diff header on is a clean body and its own strip. */
  lemma BodyFromHeader(t: string, start: int) returns (u: string)
    requires t == [] || !IsSpace(t[|t| - 1])
    requires NoFence(t)
    requires 0 <= start && start == IndexOf(t, DiffHeader)
    ensures start <= |t| && u == t[start..]
    ensures CleanBody(u) && Strip(u) == u
  {
    u := t[start..];
    assert u[..|DiffHeader|] == DiffHeader;
    assert u[0] == u[..|DiffHeader|][0] == 'd';
    assert u[|u| - 1] == t[|t| - 1];
    StripOfStripped(u);
    assert !IsFence(u) by {
      assert |u| >= 3 ==> u[..3][0] == u[0];
    }
    NoFenceSuffix(t, start);
  }

  /** The part of the fence-free text the sanitiser keeps is a clean body. */
  lemma SanitizedBody(raw: string) returns (u: string)
    requires Sanitized(raw).Ok?
    ensures var t := FenceFree(raw); 0 <= IndexOf(t, DiffHeader) && u == t[IndexOf(t, DiffHeader)..]
    ensures CleanBody(u) && Sanitized(raw).value == u + "\n"
  {
    var t := FenceFree(raw);
    StripFacts(Join(Unfenced(SplitLines(Strip(raw)))));
    FenceFreeHasNoFence(raw);
    u := BodyFromHeader(t, IndexOf(t, DiffHeader));
    assert !EndsWith(u, "\n");
  }

  /** A clean body plus a newline is a fixed point of the sanitiser. */
  lemma SanitizeClean(u: string)
    requires CleanBody(u)
    ensures Sanitized(u + "\n") == Ok(u + "\n")
  {
    var out := u + "\n";
    assert u[0] == DiffHeader[0];
    StripNewline(u);
    NoFenceSplit(u);
    UnfencedKeepsAll(SplitLines(u));
    JoinSplitLines(u);
    StripOfStripped(u);
    assert FenceFree(out) == u;
    assert OccursAt(u, DiffHeader, 0);
    assert u[0..] == u;
  }

  /** Its output is the fence-free text from the first diff header on, plus a
      newline; it starts with the header, ends with a newline and has no
      fence line. */
  lemma SanitizedShape(raw: string)
    requires Sanitized(raw).Ok?
    ensures var t := FenceFree(raw);
      var start := IndexOf(t, DiffHeader);
      0 <= start && Sanitized(raw).value == t[start..] + "\n"
    ensures StartsWith(Sanitized(raw).value, DiffHeader)
    ensures EndsWith(Sanitized(raw).value, "\n")
    ensures NoFenceLines(Sanitized(raw).value)
  {
    var u := SanitizedBody(raw);
    var out := u + "\n";
    assert out[..|DiffHeader|] == u[..|DiffHeader|];
    assert out[|out| - 1..] == "\n";
    NoFenceNewline(u);
    NoFenceSplit(out);
  }

  /** Sanitising a sanitised patch changes nothing. */
  lemma SanitizeIdempotent(raw: string)
    requires Sanitized(raw).Ok?
    ensures Sanitized(Sanitized(raw).value) == Sanitized(raw)
  {
    var u := SanitizedBody(raw);
    SanitizeClean(u);
  }

  /** A sanitised patch always passes the first check of `validate_basic`. */
  lemma SanitizedStartsLikeADiff(raw: string)
    requires Sanitized(raw).Ok?
    ensures ValidateBasic(Sanitized(raw).value) != Fail(PatchValidationError(NotADiffMessage))
  {
    var u := SanitizedBody(raw);
    assert (u + "\n")[..|DiffHeader|] == u[..|DiffHeader|];
    assert NotADiffMessage != ProseMessage && NotADiffMessage != MarkersMessage by {
      assert NotADiffMessage[6] == 'm' && ProseMessage[6] == 'c';
      assert NotADiffMessage[7] == 'u' && MarkersMessage[7] == 'i';
    }
  }
}
