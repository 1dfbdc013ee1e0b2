/**
  String helpers and the small fragment of Python's `re` that the media
  resolver relies on.  Every resolver pattern has the shape
  `^<prefix>(.+)<tail>` and is used through `re.findall(...)[0]`, so it is
  modelled here as a capture function returning `None` exactly when
  `findall` returns an empty list.
*/
module Text {
  import opened Maybe

  predicate StartsWith(s: string, prefix: string) {
    |prefix| <= |s| && s[..|prefix|] == prefix
  }

  predicate EndsWith(s: string, suffix: string) {
    |suffix| <= |s| && s[|s| - |suffix|..] == suffix
  }

  /** Python's `\w` restricted to ASCII: letters, digits and underscore. */
  predicate IsWordChar(c: char) {
    ('a' <= c <= 'z') || ('A' <= c <= 'Z') || ('0' <= c <= '9') || c == '_'
  }

  /** The text before the first newline: the only part `.` can match. */
  function FirstLine(s: string): (line: string)
    ensures line <= s
    ensures '\n' !in line
    ensures |line| < |s| ==> s[|line|] == '\n'
  {
    if |s| == 0 || s[0] == '\n' then [] else [s[0]] + FirstLine(s[1..])
  }

  lemma FirstLineOfSingleLine(s: string)
    requires '\n' !in s
    ensures FirstLine(s) == s
  {
  }

  predicate OccursAt(s: string, lit: string, k: int) {
    0 <= k && k + |lit| <= |s| && s[k..k + |lit|] == lit
  }

  /**
    The largest position `k` in `1..hi` at which `lit` occurs in `line`:
    the split point a greedy `(.+)` followed by `lit` settles on.
  */
  function LastOccurrenceFrom(line: string, lit: string, hi: int): (r: Option<nat>)
    ensures r.Some? ==> 1 <= r.value <= hi && OccursAt(line, lit, r.value)
    ensures r.Some? ==> forall j :: r.value < j <= hi ==> !OccursAt(line, lit, j)
    ensures r.None? ==> forall j :: 1 <= j <= hi ==> !OccursAt(line, lit, j)
    decreases hi
  {
    if hi < 1 then None
    else if OccursAt(line, lit, hi) then Some(hi)
    else LastOccurrenceFrom(line, lit, hi - 1)
  }

  predicate DotWordAt(line: string, k: int) {
    0 <= k && k + 1 < |line| && line[k] == '.' && IsWordChar(line[k + 1])
  }

  /** The largest `k` in `1..hi` where `\.\w` matches `line` at `k`. */
  function LastDotWordFrom(line: string, hi: int): (r: Option<nat>)
    ensures r.Some? ==> 1 <= r.value <= hi && DotWordAt(line, r.value)
    ensures r.Some? ==> forall j :: r.value < j <= hi ==> !DotWordAt(line, j)
    ensures r.None? ==> forall j :: 1 <= j <= hi ==> !DotWordAt(line, j)
    decreases hi
  {
    if hi < 1 then None
    else if DotWordAt(line, hi) then Some(hi)
    else LastDotWordFrom(line, hi - 1)
  }

  /** What follows the captured group `(.+)` in a pattern. */
  datatype Tail =
    | Literal(lit: string)  // an escaped literal such as `\.gifv`
    | DotWord               // `\.(\w+)`
    | Nothing               // the group runs to the end of the match

  /**
    The first group of `re.findall('^' + prefix + '(.+)' + tail, s)[0]`,
    or `None` when `findall` finds nothing (the `[0]` that follows then
    raises `IndexError`).  Every prefix and literal tail the resolver uses is free
    of newlines, so a match never has to look past the first line.
  */
  function Capture(s: string, prefix: string, tail: Tail): (r: Option<string>)
    ensures r.Some? ==> StartsWith(s, prefix)
    ensures r.Some? ==> 1 <= |r.value| && '\n' !in r.value
    ensures r.Some? ==> r.value <= s[|prefix|..]
  {
    if !StartsWith(s, prefix) then None
    else
      var line := FirstLine(s[|prefix|..]);
      match tail
      case Literal(lit) =>
        (match LastOccurrenceFrom(line, lit, |line| - |lit|)
         case Some(k) => Some(line[..k])
         case None => None)
      case DotWord =>
        (match LastDotWordFrom(line, |line| - 2)
         case Some(k) => Some(line[..k])
         case None => None)
      case Nothing =>
        if |line| >= 1 then Some(line) else None
  }

  /**
    Round trip: a string built as `prefix + id + lit` from a one-line,
    non-empty `id` yields `id` back as its capture, whatever else `id`
    contains (the greedy group always reaches the final `lit`).
  */
  lemma CaptureLiteralRoundTrip(prefix: string, id: string, lit: string)
    requires '\n' !in prefix && '\n' !in lit && '\n' !in id
    requires 1 <= |id|
    ensures Capture(prefix + id + lit, prefix, Literal(lit)) == Some(id)
  {
    var s := prefix + id + lit;
    assert s[..|prefix|] == prefix;
    assert s[|prefix|..] == id + lit;
    FirstLineOfSingleLine(id + lit);
    var line := id + lit;
    assert OccursAt(line, lit, |id|) by {
      assert line[|id|..|id| + |lit|] == lit;
    }
    assert line[..|id|] == id;
  }

  /** Round trip for `^prefix(.+)` with nothing after the group. */
  lemma CaptureRestRoundTrip(prefix: string, id: string)
    requires '\n' !in prefix && '\n' !in id
    requires 1 <= |id|
    ensures Capture(prefix + id, prefix, Nothing) == Some(id)
  {
    var s := prefix + id;
    assert s[..|prefix|] == prefix;
    assert s[|prefix|..] == id;
    FirstLineOfSingleLine(id);
  }

  /** `LastDotWordFrom` finds exactly the match with no later match up to `hi`. */
  lemma {:induction false} LastDotWordFromIs(line: string, hi: int, k: nat)
    requires 1 <= k <= hi && DotWordAt(line, k)
    requires forall j :: k < j <= hi ==> !DotWordAt(line, j)
    ensures LastDotWordFrom(line, hi) == Some(k)
    decreases hi
  {
    if hi > k {
      assert !DotWordAt(line, hi);
      LastDotWordFromIs(line, hi - 1, k);
    }
  }

  /** In `id + "." + ext` with a word-character `ext`, the last `.w` is the dot after `id`. */
  lemma LastDotWordOfSplit(id: string, ext: string)
    requires 1 <= |id| && 1 <= |ext|
    requires forall i :: 0 <= i < |ext| ==> IsWordChar(ext[i])
    ensures LastDotWordFrom(id + "." + ext, |id| + |ext| - 1) == Some(|id|)
  {
    var line := id + "." + ext;
    // no `.w` after position |id|: every later character is a word character
    forall j | |id| < j <= |line| - 2
      ensures !DotWordAt(line, j)
    {
      assert line[j] == ext[j - |id| - 1];
    }
    assert DotWordAt(line, |id|) by {
      assert line[|id|] == '.';
      assert line[|id| + 1] == ext[0];
    }
    LastDotWordFromIs(line, |line| - 2, |id|);
  }

  /** Round trip for `^prefix(.+)\.(\w+)`: the group ends at the last `.w`. */
  lemma CaptureDotWordRoundTrip(prefix: string, id: string, ext: string)
    requires '\n' !in prefix && '\n' !in id && '\n' !in ext
    requires 1 <= |id| && 1 <= |ext|
    requires forall i :: 0 <= i < |ext| ==> IsWordChar(ext[i])
    ensures Capture(prefix + id + "." + ext, prefix, DotWord) == Some(id)
  {
    var s := prefix + id + "." + ext;
    var line := id + "." + ext;
    assert s[..|prefix|] == prefix;
    assert s[|prefix|..] == line;
    FirstLineOfSingleLine(line);
    LastDotWordOfSplit(id, ext);
    assert |line| - 2 == |id| + |ext| - 1;
    assert line[..|id|] == id;
  }
}
