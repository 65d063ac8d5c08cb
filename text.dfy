/** The string operations the flow editor relies on, with Python's semantics:
    `str.strip`, `str.upper`, `str.capitalize`, `str.split`, `str.join`, `str.replace`,
    and the regular-expression search for `${name}` template markers. Characters outside ASCII are
    not case-mapped. */
module Text {
  import opened Wrappers

  /** Python's `str.isspace()` on one character, restricted to the ASCII range. */
  predicate IsSpace(c: char) {
    c == ' ' || 9 <= c as int <= 13 || 28 <= c as int <= 31
  }

  predicate AllSpace(s: string) {
    forall i :: 0 <= i < |s| ==> IsSpace(s[i])
  }

  // ---------------------------------------------------------------------------
  // strip

  /** `s.strip()`: leading and trailing whitespace removed. */
  function Strip(s: string): (r: string)
    ensures |r| <= |s|
    ensures r == [] || (!IsSpace(r[0]) && !IsSpace(r[|r| - 1]))
    decreases |s|
  {
    if |s| > 0 && IsSpace(s[0]) then Strip(s[1..])
    else if |s| > 0 && IsSpace(s[|s| - 1]) then Strip(s[..|s| - 1])
    else s
  }

  /** One step of `strip`: a leading, then a trailing whitespace character is dropped. */
  lemma StripStep(s: string)
    ensures |s| > 0 && IsSpace(s[0]) ==> Strip(s) == Strip(s[1..])
    ensures |s| > 0 && !IsSpace(s[0]) && IsSpace(s[|s| - 1]) ==> Strip(s) == Strip(s[..|s| - 1])
    ensures (|s| == 0 || (!IsSpace(s[0]) && !IsSpace(s[|s| - 1]))) ==> Strip(s) == s
  {
  }

  /** `r` is the slice of `s` that starts at offset `k`. */
  ghost predicate SliceAt(r: string, s: string, k: nat) {
    k + |r| <= |s| && r == s[k..k + |r|]
  }

  /** Stripping a leading whitespace character moves the slice one place right. */
  lemma StripFrontSlice(s: string, j: nat)
    requires |s| > 0 && IsSpace(s[0]) && SliceAt(Strip(s[1..]), s[1..], j)
    ensures SliceAt(Strip(s), s, j + 1)
  {
    var t := s[1..];
    var r := Strip(t);
    assert Strip(s) == r by { StripStep(s); }
    assert r == s[j + 1..j + 1 + |r|] by {
      assert forall i :: 0 <= i < |r| ==> r[i] == t[j + i] == s[j + 1 + i];
    }
  }

  /** Stripping a trailing whitespace character leaves the slice where it was. */
  lemma StripBackSlice(s: string, k: nat)
    requires |s| > 0 && !IsSpace(s[0]) && IsSpace(s[|s| - 1]) && SliceAt(Strip(s[..|s| - 1]), s[..|s| - 1], k)
    ensures SliceAt(Strip(s), s, k)
  {
    var t := s[..|s| - 1];
    var r := Strip(t);
    assert Strip(s) == r by { StripStep(s); }
    assert r == s[k..k + |r|] by {
      assert forall i :: 0 <= i < |r| ==> r[i] == t[k + i] == s[k + i];
    }
  }

  /** A string with no whitespace at either end is its own strip, the slice at offset 0. */
  lemma StripWhole(s: string)
    requires |s| == 0 || (!IsSpace(s[0]) && !IsSpace(s[|s| - 1]))
    ensures SliceAt(Strip(s), s, 0)
  {
    StripStep(s);
    assert s[0..|s|] == s;
  }

  /** What `strip` leaves is a slice of its argument, found at offset `k`. */
  lemma {:induction false} StripIsSlice(s: string) returns (k: nat)
    ensures SliceAt(Strip(s), s, k)
    decreases |s|
  {
    if |s| > 0 && IsSpace(s[0]) {
      var j := StripIsSlice(s[1..]);
      StripFrontSlice(s, j);
      k := j + 1;
    } else if |s| > 0 && IsSpace(s[|s| - 1]) {
      k := StripIsSlice(s[..|s| - 1]);
      StripBackSlice(s, k);
    } else {
      StripWhole(s);
      k := 0;
    }
  }

  /** `s` holds a character that is not whitespace. */
  predicate Filled(s: string) {
    exists k :: 0 <= k < |s| && !IsSpace(s[k])
  }

  /** A string is filled exactly when stripping it leaves something: `not s.strip()` is
      `not Filled(s)`. */
  lemma {:induction false} FilledIff(s: string)
    ensures Filled(s) <==> Strip(s) != ""
    decreases |s|
  {
    if |s| > 0 && IsSpace(s[0]) {
      FilledIff(s[1..]);
      if Filled(s) {
        var k :| 0 <= k < |s| && !IsSpace(s[k]);
        assert s[1..][k - 1] == s[k];
      }
      if Filled(s[1..]) {
        var k :| 0 <= k < |s| - 1 && !IsSpace(s[1..][k]);
        assert s[k + 1] == s[1..][k];
      }
    } else if |s| > 0 && IsSpace(s[|s| - 1]) {
      FilledIff(s[..|s| - 1]);
      if Filled(s) {
        var k :| 0 <= k < |s| && !IsSpace(s[k]);
        assert s[..|s| - 1][k] == s[k];
      }
      if Filled(s[..|s| - 1]) {
        var k :| 0 <= k < |s| - 1 && !IsSpace(s[..|s| - 1][k]);
        assert s[k] == s[..|s| - 1][k];
      }
    } else if |s| > 0 {
      assert !IsSpace(s[0]);
    }
  }

  predicate IsStripped(s: string) {
    s == [] || (!IsSpace(s[0]) && !IsSpace(s[|s| - 1]))
  }

  /** Stripping a string that has no outer whitespace leaves it as it is; in particular
      stripping twice is the same as stripping once. */
  lemma StripStripped(s: string)
    requires IsStripped(s)
    ensures Strip(s) == s
  {
  }

  /** Whitespace in front of a string does not survive stripping. */
  lemma {:induction false} StripAfterSpace(pad: string, s: string)
    requires AllSpace(pad)
    ensures Strip(pad + s) == Strip(s)
    decreases |pad|
  {
    if |pad| > 0 {
      assert (pad + s)[1..] == pad[1..] + s;
      StripAfterSpace(pad[1..], s);
    } else {
      assert pad + s == s;
    }
  }

  // ---------------------------------------------------------------------------
  // case

  function UpperChar(c: char): char {
    if 'a' <= c <= 'z' then (c as int - 32) as char else c
  }

  function LowerChar(c: char): char {
    if 'A' <= c <= 'Z' then (c as int + 32) as char else c
  }

  /** `s.upper()`. */
  function Upper(s: string): (r: string)
    ensures |r| == |s| && forall i :: 0 <= i < |s| ==> r[i] == UpperChar(s[i])
  {
    seq(|s|, i requires 0 <= i < |s| => UpperChar(s[i]))
  }

  /** `s.lower()`. */
  function Lower(s: string): (r: string)
    ensures |r| == |s| && forall i :: 0 <= i < |s| ==> r[i] == LowerChar(s[i])
  {
    seq(|s|, i requires 0 <= i < |s| => LowerChar(s[i]))
  }

  /** `op.upper()` is the upper case of a lower-case word exactly when `op.lower()` is that
      word. */
  lemma SameWordIgnoringCase(op: string, w: string)
    requires forall i :: 0 <= i < |w| ==> 'a' <= w[i] <= 'z'
    ensures Upper(op) == Upper(w) <==> Lower(op) == w
  {
    if Lower(op) == w {
      assert forall i :: 0 <= i < |op| ==> Upper(op)[i] == Upper(w)[i];
    }
    if Upper(op) == Upper(w) {
      assert forall i :: 0 <= i < |op| ==> Lower(op)[i] == w[i];
    }
  }

  /** `s.capitalize()`: first character upper case, the rest lower case. */
  function Capitalize(s: string): (r: string)
    ensures |r| == |s|
    ensures |s| > 0 ==> r[0] == UpperChar(s[0]) && r[1..] == Lower(s[1..])
  {
    if |s| == 0 then [] else [UpperChar(s[0])] + Lower(s[1..])
  }

  // ---------------------------------------------------------------------------
  // searching

  /** `pat` occurs in `s` at index `i`. */
  predicate Occurs(s: string, pat: string, i: nat) {
    i + |pat| <= |s| && s[i..i + |pat|] == pat
  }

  ghost predicate NoOccurrence(s: string, pat: string) {
    forall j: nat :: !Occurs(s, pat, j)
  }

  /** An occurrence inside a slice is an occurrence in the whole string, shifted by the start
      of the slice. */
  lemma OccursInSlice(s: string, lo: nat, hi: nat, pat: string, j: nat)
    requires lo <= hi <= |s|
    ensures Occurs(s[lo..hi], pat, j) <==> j + |pat| <= hi - lo && Occurs(s, pat, lo + j)
  {
    if j + |pat| <= hi - lo {
      var inner, outer := s[lo..hi][j..j + |pat|], s[lo + j..lo + j + |pat|];
      assert |inner| == |outer|;
      assert forall i :: 0 <= i < |inner| ==> inner[i] == s[lo + j + i] == outer[i];
      assert inner == outer;
    }
  }

  lemma OccursInTail(s: string, pat: string, j: nat)
    requires |s| > 0
    ensures Occurs(s, pat, j + 1) <==> Occurs(s[1..], pat, j)
  {
    assert s[1..] == s[1..|s|];
    OccursInSlice(s, 1, |s|, pat, j);
  }

  /** `s.find(pat)` as an option: the first index at which `pat` occurs. */
  function IndexOf(s: string, pat: string): (r: Option<nat>)
    ensures r.Some? ==> Occurs(s, pat, r.value) && forall j: nat :: j < r.value ==> !Occurs(s, pat, j)
    ensures r.None? ==> NoOccurrence(s, pat)
    decreases |s|
  {
    if |s| < |pat| then None
    else if s[..|pat|] == pat then Some(0)
    else
      assert !Occurs(s, pat, 0);
      match IndexOf(s[1..], pat)
      case Some(k) =>
        assert forall j: nat :: j < k + 1 ==> !Occurs(s, pat, j) by {
          forall j: nat | j < k + 1 ensures !Occurs(s, pat, j) {
            if j > 0 { OccursInTail(s, pat, j - 1); }
          }
        }
        OccursInTail(s, pat, k);
        Some(k + 1)
      case None =>
        assert forall j: nat :: !Occurs(s, pat, j) by {
          forall j: nat ensures !Occurs(s, pat, j) {
            if j > 0 { OccursInTail(s, pat, j - 1); }
          }
        }
        None
  }

  // ---------------------------------------------------------------------------
  // split, join, replace

  /** `s.split(sep)` for a non-empty separator: the pieces between successive leftmost
      occurrences of `sep`. */
  function Split(s: string, sep: string): (parts: seq<string>)
    requires |sep| > 0
    ensures |parts| >= 1
    decreases |s|
  {
    match IndexOf(s, sep)
    case None => [s]
    case Some(i) => [s[..i]] + Split(s[i + |sep|..], sep)
  }

  /** `sep.join(parts)`. */
  function Join(parts: seq<string>, sep: string): string
    decreases |parts|
  {
    if |parts| == 0 then ""
    else if |parts| == 1 then parts[0]
    else parts[0] + sep + Join(parts[1..], sep)
  }

  /** `s.replace(pat, rep)` for a non-empty pattern. */
  function Replace(s: string, pat: string, rep: string): string
    requires |pat| > 0
  {
    Join(Split(s, pat), rep)
  }

  /** Splitting and joining with the same separator gives back the string. */
  lemma {:induction false} JoinSplit(s: string, sep: string)
    requires |sep| > 0
    ensures Join(Split(s, sep), sep) == s
    decreases |s|
  {
    match IndexOf(s, sep)
    case None =>
    case Some(i) =>
      var rest := s[i + |sep|..];
      var tail := Split(rest, sep);
      JoinSplit(rest, sep);
      var parts := [s[..i]] + tail;
      assert Split(s, sep) == parts;
      assert parts[1..] == tail;
      assert Join(parts, sep) == s[..i] + sep + Join(tail, sep);
      assert s[i..i + |sep|] == sep;
      assert s == s[..i] + s[i..i + |sep|] + rest;
  }

  /** No piece of a split contains the separator. */
  lemma {:induction false} SplitPiecesAreFree(s: string, sep: string)
    requires |sep| > 0
    ensures forall k :: 0 <= k < |Split(s, sep)| ==> NoOccurrence(Split(s, sep)[k], sep)
    decreases |s|
  {
    match IndexOf(s, sep)
    case None =>
    case Some(i) =>
      var head := s[..i];
      assert head == s[0..i];
      forall j: nat ensures !Occurs(head, sep, j) {
        OccursInSlice(s, 0, i, sep, j);
      }
      SplitPiecesAreFree(s[i + |sep|..], sep);
  }

  /** A string without the pattern is left unchanged by `replace`. */
  lemma ReplaceAbsent(s: string, pat: string, rep: string)
    requires |pat| > 0 && NoOccurrence(s, pat)
    ensures Replace(s, pat, rep) == s
  {
  }

  /** What `replace` does, stated through the pieces between occurrences: `s` is those pieces
      joined by `pat`, none of them contains `pat`, and the result is the same pieces joined
      by `rep`. So every occurrence (leftmost, non-overlapping) is replaced and nothing else. */
  lemma ReplaceByPieces(s: string, pat: string, rep: string)
    requires |pat| > 0
    ensures var parts := Split(s, pat);
      && s == Join(parts, pat)
      && Replace(s, pat, rep) == Join(parts, rep)
      && forall k :: 0 <= k < |parts| ==> NoOccurrence(parts[k], pat)
  {
    JoinSplit(s, pat);
    SplitPiecesAreFree(s, pat);
  }

  /** Joining pieces whose first piece is extended in front extends the result in front. */
  lemma JoinPrefix(a: string, parts: seq<string>, sep: string)
    requires |parts| > 0
    ensures Join([a + parts[0]] + parts[1..], sep) == a + Join(parts, sep)
  {
    var ps := [a + parts[0]] + parts[1..];
    if |parts| > 1 {
      assert ps[1..] == parts[1..];
    }
  }

  /** `replace` passes over a prefix in which no occurrence of the pattern starts. */
  lemma ReplacePastPrefix(a: string, b: string, pat: string, rep: string)
    requires |pat| > 0
    requires forall j: nat :: j < |a| ==> !Occurs(a + b, pat, j)
    ensures Replace(a + b, pat, rep) == a + Replace(b, pat, rep)
  {
    var s := a + b;
    assert s[|a|..|s|] == b;
    forall k: nat ensures Occurs(s, pat, |a| + k) <==> Occurs(b, pat, k) {
      OccursInSlice(s, |a|, |s|, pat, k);
    }
    match IndexOf(s, pat)
    case None =>
    case Some(i) =>
      var k := i - |a|;
      assert Occurs(b, pat, k);
      match IndexOf(b, pat)
      case None =>
      case Some(r) =>
        assert r == k;
        assert s[..i] == a + b[..k];
        assert s[i + |pat|..] == b[k + |pat|..];
        JoinPrefix(a, Split(b, pat), rep);
  }

  /** `replace` on a string that starts with the pattern puts the replacement first. */
  lemma ReplaceAtStart(pat: string, b: string, rep: string)
    requires |pat| > 0
    ensures Replace(pat + b, pat, rep) == rep + Replace(b, pat, rep)
  {
    var s := pat + b;
    assert s[..|pat|] == pat;
    assert IndexOf(s, pat) == Some(0);
    assert s[..0] == "" && s[|pat|..] == b;
    var parts := [""] + Split(b, pat);
    assert Split(s, pat) == parts;
    assert parts[1..] == Split(b, pat);
  }

  lemma {:induction false} SplitOneChar(t: string, c: char, u: string)
    requires NoOccurrence(t, [c])
    ensures Split(t + [c] + u, [c]) == [t] + Split(u, [c])
  {
    var s := t + [c] + u;
    assert Occurs(s, [c], |t|);
    forall j: nat | j < |t| ensures !Occurs(s, [c], j) {
      assert s[j..j + 1] == t[j..j + 1];
      assert !Occurs(t, [c], j);
    }
    assert IndexOf(s, [c]) == Some(|t|);
    assert s[..|t|] == t;
    assert s[|t| + 1..] == u;
  }

  /** Every item behind `pad`. */
  function PadEach(pad: string, items: seq<string>): (r: seq<string>)
    ensures |r| == |items| && forall k :: 0 <= k < |items| ==> r[k] == pad + items[k]
  {
    seq(|items|, k requires 0 <= k < |items| => pad + items[k])
  }

  /** Padding a list pads its head, then its tail. */
  lemma PadEachCons(pad: string, items: seq<string>)
    requires |items| >= 1
    ensures PadEach(pad, items) == [pad + items[0]] + PadEach(pad, items[1..])
  {
    assert forall k :: 1 <= k < |items| ==> items[1..][k - 1] == items[k];
  }

  /** Joining pieces that do not contain the character `c` with `c` + `pad` and splitting on `c`
      gives back the first piece and every other piece behind `pad`. */
  lemma SplitJoinPadded(items: seq<string>, c: char, pad: string)
    requires |items| >= 1
    requires forall k :: 0 <= k < |items| ==> NoOccurrence(items[k], [c])
    requires NoOccurrence(pad, [c])
    ensures Split(Join(items, [c] + pad), [c]) == [items[0]] + PadEach(pad, items[1..])
  {
    if |items| > 1 {
      var rest := items[1..];
      var tail := pad + Join(rest, [c] + pad);
      assert Join(items, [c] + pad) == items[0] + [c] + tail;
      SplitOneChar(items[0], c, tail);
      PaddedSplit(rest, c, pad);
    }
  }

  /** A character found in neither of two strings is not found in their concatenation. */
  lemma PadKeepsNoOccurrence(pad: string, t: string, c: char)
    requires NoOccurrence(pad, [c]) && NoOccurrence(t, [c])
    ensures NoOccurrence(pad + t, [c])
  {
    var padded := pad + t;
    forall j: nat ensures !Occurs(padded, [c], j) {
      if j < |pad| {
        assert padded[j..j + 1] == pad[j..j + 1];
        assert !Occurs(pad, [c], j);
      } else if j + 1 <= |padded| {
        assert padded[j..j + 1] == t[j - |pad|..j - |pad| + 1];
        assert !Occurs(t, [c], j - |pad|);
      }
    }
  }

  /** Helper for `SplitJoinPadded`: putting `pad` in front of the joined tail only changes its
      first piece. */
  lemma {:induction false} PaddedSplit(rest: seq<string>, c: char, pad: string)
    requires |rest| >= 1
    requires forall k :: 0 <= k < |rest| ==> NoOccurrence(rest[k], [c])
    requires NoOccurrence(pad, [c])
    ensures Split(pad + Join(rest, [c] + pad), [c]) == PadEach(pad, rest)
    decreases |rest|
  {
    var padded := pad + rest[0];
    PadKeepsNoOccurrence(pad, rest[0], c);
    PadEachCons(pad, rest);
    if |rest| == 1 {
      assert Split(padded, [c]) == [padded];
    } else {
      var more := rest[1..];
      var tail := pad + Join(more, [c] + pad);
      assert pad + Join(rest, [c] + pad) == padded + [c] + tail;
      SplitOneChar(padded, c, tail);
      PaddedSplit(more, c, pad);
    }
  }

  // ---------------------------------------------------------------------------
  // comma-separated lists

  function StripAll(parts: seq<string>): (r: seq<string>)
    ensures |r| == |parts| && forall k :: 0 <= k < |parts| ==> r[k] == Strip(parts[k])
  {
    seq(|parts|, k requires 0 <= k < |parts| => Strip(parts[k]))
  }

  /** The non-empty elements of `parts`, in order. */
  function NonEmpty(parts: seq<string>): (r: seq<string>)
    ensures |r| <= |parts|
    ensures forall k :: 0 <= k < |r| ==> r[k] != "" && r[k] in parts
    decreases |parts|
  {
    if |parts| == 0 then []
    else if parts[|parts| - 1] == "" then NonEmpty(parts[..|parts| - 1])
    else NonEmpty(parts[..|parts| - 1]) + [parts[|parts| - 1]]
  }

  lemma {:induction false} NonEmptyOfNonEmpty(parts: seq<string>)
    requires forall k :: 0 <= k < |parts| ==> parts[k] != ""
    ensures NonEmpty(parts) == parts
    decreases |parts|
  {
    if |parts| > 0 {
      NonEmptyOfNonEmpty(parts[..|parts| - 1]);
    }
  }

  /** The pieces of `s` between separators, stripped, with empty pieces dropped: the list syntax of the response and
      parameter fields. */
  function SplitStripNonEmpty(s: string, sep: string): (r: seq<string>)
    requires |sep| > 0
    ensures forall k :: 0 <= k < |r| ==> r[k] != "" && IsStripped(r[k])
  {
    NonEmpty(StripAll(Split(s, sep)))
  }

  /** Whitespace holds no comma. */
  lemma SpaceHasNoComma(pad: string)
    requires AllSpace(pad)
    ensures NoOccurrence(pad, ",")
  {
    forall j: nat ensures !Occurs(pad, ",", j) {
      if j + 1 <= |pad| { assert pad[j..j + 1] == [pad[j]]; }
    }
  }

  /** Stripping the pieces produced by `SplitJoinPadded` removes the padding again. */
  lemma StripPadded(items: seq<string>, pad: string)
    requires |items| >= 1
    requires forall k :: 0 <= k < |items| ==> IsStripped(items[k])
    requires AllSpace(pad)
    ensures StripAll([items[0]] + PadEach(pad, items[1..])) == items
  {
    var parts := [items[0]] + PadEach(pad, items[1..]);
    forall k | 0 <= k < |items| ensures Strip(parts[k]) == items[k] {
      StripStripped(items[k]);
      if k > 0 {
        assert parts[k] == pad + items[k];
        StripAfterSpace(pad, items[k]);
      }
    }
  }


  lemma EmptyListRoundTrip()
    ensures SplitStripNonEmpty("", ",") == []
  {
    assert IndexOf("", ",") == None;
    assert Split("", ",") == [""];
    assert StripAll([""]) == [""];
    assert NonEmpty([""]) == NonEmpty([]);
  }

  /** Writing a list back as `pad`-spaced, comma-joined text (what the configuration dialogs
      pre-fill) and parsing it again yields the list, provided every element is non-empty,
      stripped and free of commas. */
  lemma ListRoundTrip(items: seq<string>, pad: string)
    requires forall k :: 0 <= k < |items| ==> items[k] != "" && IsStripped(items[k])
    requires forall k :: 0 <= k < |items| ==> NoOccurrence(items[k], ",")
    requires AllSpace(pad)
    ensures SplitStripNonEmpty(Join(items, "," + pad), ",") == items
  {
    if |items| == 0 {
      EmptyListRoundTrip();
    } else {
      SpaceHasNoComma(pad);
      assert "," + pad == [','] + pad;
      SplitJoinPadded(items, ',', pad);
      StripPadded(items, pad);
      NonEmptyOfNonEmpty(items);
    }
  }

  // ---------------------------------------------------------------------------
  // template markers

  /** The text `${name}`. */
  function Marker(name: string): (m: string)
    ensures |m| == |name| + 3 && m[..2] == "${" && m[|m| - 1] == '}'
  {
    "${" + name + "}"
  }

  /** The names of the `${name}` markers in `s`, scanning left to
      right without overlap; a name is one or more characters other than `}`. */
  function FindMarkers(s: string): (names: seq<string>)
    ensures forall k :: 0 <= k < |names| ==> |names[k]| > 0 && NoOccurrence(names[k], "}")
    decreases |s|
  {
    if |s| < 2 then []
    else if s[0] == '$' && s[1] == '{' then
      match IndexOf(s[2..], "}")
      case Some(j) =>
        if j > 0 then
          var name := s[2..2 + j];
          assert NoOccurrence(name, "}") by {
            assert s[2..] == s[2..|s|];
            forall i: nat ensures !Occurs(name, "}", i) {
              OccursInSlice(s, 2, 2 + j, "}", i);
              OccursInSlice(s, 2, |s|, "}", i);
            }
          }
          [name] + FindMarkers(s[3 + j..])
        else FindMarkers(s[1..])
      case None => FindMarkers(s[1..])
    else FindMarkers(s[1..])
  }

  /** A string free of `${` does not start with `${`. */
  lemma NoOpeningAtStart(s: string)
    requires |s| >= 2 && NoOccurrence(s, "${")
    ensures !(s[0] == '$' && s[1] == '{')
  {
    assert !Occurs(s, "${", 0);
    assert s[0..2] == [s[0], s[1]];
  }

  /** Dropping the first character keeps a string free of `pat`. */
  lemma NoOccurrenceInTail(s: string, pat: string)
    requires |s| > 0 && NoOccurrence(s, pat)
    ensures NoOccurrence(s[1..], pat)
  {
    forall j: nat ensures !Occurs(s[1..], pat, j) {
      OccursInTail(s, pat, j);
    }
  }

  /** Text without `${` holds no markers. */
  lemma {:induction false} NoMarkersWithoutOpening(s: string)
    requires NoOccurrence(s, "${")
    ensures FindMarkers(s) == []
    decreases |s|
  {
    if |s| >= 2 {
      NoOpeningAtStart(s);
      NoOccurrenceInTail(s, "${");
      NoMarkersWithoutOpening(s[1..]);
    }
  }

  /** A marker is the only marker found in `t + ${name} + u` when `t` and `u` contain no `${`. */
  lemma SingleMarkerFound(t: string, name: string, u: string)
    requires NoOccurrence(t, "${") && NoOccurrence(u, "${")
    requires |name| > 0 && NoOccurrence(name, "}")
    ensures FindMarkers(t + Marker(name) + u) == [name]
  {
    FirstMarkerFound(t, name, u);
    NoMarkersWithoutOpening(u);
  }

  /** In `t + ${name} + u`, with `t` free of `${`, the first marker found is `name`, and the
      scan goes on right after it. */
  lemma {:induction false} FirstMarkerFound(t: string, name: string, u: string)
    requires NoOccurrence(t, "${")
    requires |name| > 0 && NoOccurrence(name, "}")
    ensures FindMarkers(t + Marker(name) + u) == [name] + FindMarkers(u)
    decreases |t|
  {
    var s := t + Marker(name) + u;
    if |t| == 0 {
      assert s == Marker(name) + u;
      var rest := s[2..];
      assert rest == name + "}" + u;
      assert rest[..|name|] == name;
      assert Occurs(rest, "}", |name|) by { assert rest[|name|..|name| + 1] == "}"; }
      forall j: nat | j < |name| ensures !Occurs(rest, "}", j) {
        assert name == rest[0..|name|];
        OccursInSlice(rest, 0, |name|, "}", j);
      }
      assert IndexOf(rest, "}") == Some(|name|);
      assert s[2..2 + |name|] == name;
      assert s[3 + |name|..] == u;
    } else {
      if |t| >= 2 {
        NoOpeningAtStart(t);
      }
      assert s[1] == (if |t| >= 2 then t[1] else '$');
      NoOccurrenceInTail(t, "${");
      assert s[1..] == t[1..] + Marker(name) + u;
      FirstMarkerFound(t[1..], name, u);
    }
  }

  /** Text free of `${` is free of every marker. */
  lemma NoMarkerWithoutOpening(s: string, name: string)
    requires NoOccurrence(s, "${")
    ensures NoOccurrence(s, Marker(name))
  {
    var m := Marker(name);
    forall j: nat ensures !Occurs(s, m, j) {
      if j + |m| <= |s| {
        assert !Occurs(s, "${", j);
        assert s[j..j + |m|][..2] == s[j..j + 2];
      }
    }
  }

  /** In `t + ${name} + u`, with `t` and `u` free of `${`, the marker occurs exactly once, so
      replacing it puts `rep` in its place. */
  lemma {:induction false} ReplaceSingleMarker(t: string, name: string, u: string, rep: string)
    requires NoOccurrence(t, "${") && NoOccurrence(u, "${")
    ensures Replace(t + Marker(name) + u, Marker(name), rep) == t + rep + u
  {
    var m := Marker(name);
    var s := t + m + u;
    assert Occurs(s, m, |t|) by { assert s[|t|..|t| + |m|] == m; }
    forall j: nat | j < |t| ensures !Occurs(s, m, j) {
      if j + |m| <= |s| {
        if j + 1 < |t| {
          assert !Occurs(t, "${", j);
          assert t[j..j + 2] == s[j..j + 2];
          assert s[j..j + |m|][..2] == s[j..j + 2];
        } else {
          assert s[j + 1] == '$';
          assert s[j..j + |m|][1] == s[j + 1];
          assert m[1] == '{';
        }
      }
    }
    assert IndexOf(s, m) == Some(|t|);
    assert s[..|t|] == t;
    assert s[|t| + |m|..] == u;
    NoMarkerWithoutOpening(u, name);
    assert Split(u, m) == [u];
    assert Split(s, m) == [t, u];
    assert [t, u][1..] == [u];
    assert Join([t, u], rep) == t + rep + u;
    assert Replace(s, m, rep) == Join([t, u], rep);
  }
}
