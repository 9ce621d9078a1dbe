/** The update checker of Uno/Resources/UpdateChecker.swift: cleaning release
    tags, comparing dotted version strings, and the state kept across a check
    (the in-progress flag, the network-error retry counter, the error text and
    the outcome of the last release seen). Networking, JSON decoding, timers and
    dispatch queues are not modelled; their outcomes arrive as inputs. */
module UpdateChecker {
  import opened Wrappers
  import opened Decimal

  // ---------------------------------------------------------------------------
  // Version strings
  // ---------------------------------------------------------------------------

  /** `replacingOccurrences(of: "v", with: "")`: every lower-case `v` removed,
      every other character kept in order. */
  function RemoveV(s: string): (r: string)
    ensures 'v' !in r
    ensures |r| <= |s|
    ensures forall c | c != 'v' :: multiset(r)[c] == multiset(s)[c]
  {
    if |s| == 0 then ""
    else
      assert s == [s[0]] + s[1..];
      (if s[0] == 'v' then "" else [s[0]]) + RemoveV(s[1..])
  }

  lemma {:induction false} RemoveVAppend(a: string, b: string)
    ensures RemoveV(a + b) == RemoveV(a) + RemoveV(b)
  {
    if |a| > 0 {
      assert (a + b)[1..] == a[1..] + b;
      RemoveVAppend(a[1..], b);
    } else {
      assert a + b == b;
    }
  }

  /** A string without `v` is left as it is; in particular cleaning twice is cleaning once. */
  lemma {:induction false} RemoveVNoV(s: string)
    requires 'v' !in s
    ensures RemoveV(s) == s
  {
    if |s| > 0 {
      assert 'v' !in s[1..] by {
        forall c | c in s[1..] ensures c != 'v' { assert c in s; }
      }
      RemoveVNoV(s[1..]);
    }
  }

  /** `split(separator: ".")` with Swift's default of omitting empty pieces.
      `cur` is the piece read so far. */
  function SplitFrom(s: string, cur: string): (parts: seq<string>)
    requires '.' !in cur
    ensures forall i | 0 <= i < |parts| :: |parts[i]| > 0 && '.' !in parts[i]
  {
    if |s| == 0 then
      (if |cur| == 0 then [] else [cur])
    else if s[0] == '.' then
      (if |cur| == 0 then [] else [cur]) + SplitFrom(s[1..], "")
    else
      SplitFrom(s[1..], cur + [s[0]])
  }

  function SplitDots(s: string): (parts: seq<string>)
    ensures forall i | 0 <= i < |parts| :: |parts[i]| > 0 && '.' !in parts[i]
  {
    SplitFrom(s, "")
  }

  /** The pieces joined by single dots: the inverse of `SplitDots`. */
  function JoinDots(parts: seq<string>): string {
    if |parts| == 0 then ""
    else if |parts| == 1 then parts[0]
    else parts[0] + "." + JoinDots(parts[1..])
  }

  lemma {:induction false} SplitFromWord(w: string, rest: string, cur: string)
    requires '.' !in w && '.' !in cur
    ensures SplitFrom(w + rest, cur) == SplitFrom(rest, cur + w)
  {
    if |w| == 0 {
      assert w + rest == rest;
      assert cur + w == cur;
    } else {
      assert (w + rest)[0] == w[0];
      assert (w + rest)[1..] == w[1..] + rest;
      assert '.' !in w[1..] by {
        forall c | c in w[1..] ensures c != '.' { assert c in w; }
      }
      SplitFromWord(w[1..], rest, cur + [w[0]]);
      assert cur + [w[0]] + w[1..] == cur + w;
    }
  }

  /** Splitting a dot-joined list of non-empty, dot-free pieces gives the pieces back. */
  lemma {:induction false} SplitJoin(parts: seq<string>)
    requires forall i | 0 <= i < |parts| :: |parts[i]| > 0 && '.' !in parts[i]
    ensures SplitDots(JoinDots(parts)) == parts
  {
    if |parts| == 1 {
      SplitFromWord(parts[0], "", "");
      assert parts[0] + "" == parts[0];
      assert "" + parts[0] == parts[0];
    } else if |parts| > 1 {
      var tail := JoinDots(parts[1..]);
      assert JoinDots(parts) == parts[0] + ("." + tail);
      SplitFromWord(parts[0], "." + tail, "");
      assert "" + parts[0] == parts[0];
      assert ("." + tail)[1..] == tail;
      SplitJoin(parts[1..]);
    }
  }

  /** Splitting works piece by piece across a dot: what lies before the dot
      splits on its own, and so does what lies after it. */
  lemma {:induction false} SplitFromAppend(a: string, b: string, cur: string)
    requires '.' !in cur
    ensures SplitFrom(a + "." + b, cur) == SplitFrom(a, cur) + SplitFrom(b, "")
    decreases |a|
  {
    var s := a + "." + b;
    if |a| == 0 {
      assert s == "." + b;
      assert s[1..] == b;
    } else {
      assert s[0] == a[0];
      assert s[1..] == a[1..] + "." + b;
      if a[0] == '.' {
        SplitFromAppend(a[1..], b, "");
      } else {
        assert '.' !in cur + [a[0]];
        SplitFromAppend(a[1..], b, cur + [a[0]]);
      }
    }
  }

  /** The pieces of `a.b` are the pieces of `a` followed by those of `b`. */
  lemma SplitDotsAppend(a: string, b: string)
    ensures SplitDots(a + "." + b) == SplitDots(a) + SplitDots(b)
  {
    SplitFromAppend(a, b, "");
  }

  /** A dot-free string is one piece, unless it is empty, which gives none. */
  lemma SplitDotsWord(w: string)
    requires '.' !in w
    ensures SplitDots(w) == (if w == "" then [] else [w])
  {
    SplitFromWord(w, "", "");
    assert w + "" == w;
    assert "" + w == w;
  }

  /** Empty pieces are omitted: a leading dot, a trailing dot and a doubled dot
      add no piece. */
  lemma EmptyPiecesDropped(a: string, b: string)
    ensures SplitDots("." + b) == SplitDots(b)
    ensures SplitDots(a + ".") == SplitDots(a)
    ensures SplitDots(a + ".." + b) == SplitDots(a + "." + b)
  {
    LeadingDotDropped(b);
    TrailingDotDropped(a);
    SplitDotsAppend(a, "." + b);
    assert a + "." + ("." + b) == a + ".." + b;
    SplitDotsAppend(a, b);
  }

  lemma LeadingDotDropped(b: string)
    ensures SplitDots("." + b) == SplitDots(b)
  {
    SplitDotsWord("");
    SplitDotsAppend("", b);
    assert "" + "." + b == "." + b;
  }

  lemma TrailingDotDropped(a: string)
    ensures SplitDots(a + ".") == SplitDots(a)
  {
    SplitDotsWord("");
    SplitDotsAppend(a, "");
    assert a + "." + "" == a + ".";
    assert SplitDots(a) + [] == SplitDots(a);
  }

  /** "1..2" splits into "1" and "2". */
  lemma SplitOfOneDotDotTwo()
    ensures SplitDots("1..2") == ["1", "2"]
  {
    EmptyPiecesDropped("1", "2");
    assert "1" + ".." + "2" == "1..2";
    SplitDotsAppend("1", "2");
    SplitDotsWord("1");
    SplitDotsWord("2");
  }

  /** `compactMap { Int($0) }`: the pieces that parse as integers, in order;
      the others are dropped. */
  function ParseComponents(parts: seq<string>): (xs: seq<int>)
    ensures |xs| <= |parts|
    ensures forall i | 0 <= i < |xs| :: MinInt64 <= xs[i] <= MaxInt64
    ensures |parts| == 1 ==> xs == (if ParseInt(parts[0]).Some? then [ParseInt(parts[0]).value] else [])
  {
    if |parts| == 0 then []
    else
      match ParseInt(parts[0])
      case Some(x) => [x] + ParseComponents(parts[1..])
      case None => ParseComponents(parts[1..])
  }

  /** `compactMap` works piece by piece: the components of two runs of pieces
      are those of the first followed by those of the second. */
  lemma {:induction false} ParseComponentsAppend(a: seq<string>, b: seq<string>)
    ensures ParseComponents(a + b) == ParseComponents(a) + ParseComponents(b)
  {
    if |a| == 0 {
      assert a + b == b;
    } else {
      assert (a + b)[0] == a[0];
      assert (a + b)[1..] == a[1..] + b;
      ParseComponentsAppend(a[1..], b);
    }
  }

  /** A piece that is not an integer is dropped, and the components after it
      move up one place instead of reading as zero. */
  lemma NonIntegerPieceDropped(a: seq<string>, p: string, b: seq<string>)
    requires ParseInt(p).None?
    ensures ParseComponents(a + [p] + b) == ParseComponents(a + b)
  {
    ParseComponentsAppend(a + [p], b);
    ParseComponentsAppend(a, [p]);
    ParseComponentsAppend(a, b);
    assert ParseComponents([p]) == [];
    assert ParseComponents(a) + [] == ParseComponents(a);
  }

  /** The integer components of a version string, as `compareVersions` reads them. */
  function Components(version: string): (xs: seq<int>)
    ensures forall i | 0 <= i < |xs| :: MinInt64 <= xs[i] <= MaxInt64
    ensures version == "" ==> xs == []
  {
    ParseComponents(SplitDots(RemoveV(version)))
  }

  /** Each component in decimal. */
  function ShowAll(xs: seq<nat>): (parts: seq<string>)
    ensures |parts| == |xs|
    ensures forall i | 0 <= i < |xs| :: parts[i] == ShowNat(xs[i])
  {
    if |xs| == 0 then [] else [ShowNat(xs[0])] + ShowAll(xs[1..])
  }

  /** The dotted decimal rendering of a list of components. */
  function FormatVersion(xs: seq<nat>): string {
    JoinDots(ShowAll(xs))
  }

  lemma {:induction false} NoVNoDotInJoinedDigits(parts: seq<string>)
    requires forall i | 0 <= i < |parts| :: AllDigits(parts[i])
    ensures 'v' !in JoinDots(parts)
  {
    if |parts| == 1 {
      assert forall c | c in parts[0] :: IsDigit(c);
    } else if |parts| > 1 {
      assert forall c | c in parts[0] :: IsDigit(c);
      NoVNoDotInJoinedDigits(parts[1..]);
    }
  }

  lemma ParseShowNat(n: nat)
    requires n <= MaxInt64
    ensures ParseInt(ShowNat(n)) == Some(n)
  {
    ParseShowInt(n);
  }

  lemma {:induction false} ParseComponentsOfShown(xs: seq<nat>)
    requires forall i | 0 <= i < |xs| :: xs[i] <= MaxInt64
    ensures ParseComponents(ShowAll(xs)) == xs
  {
    if |xs| > 0 {
      var p, rest := ShowNat(xs[0]), ShowAll(xs[1..]);
      assert ShowAll(xs) == [p] + rest;
      ParseComponentsAppend([p], rest);
      ParseShowNat(xs[0]);
      assert forall i | 0 <= i < |xs[1..]| :: xs[1..][i] <= MaxInt64;
      ParseComponentsOfShown(xs[1..]);
      assert xs == [xs[0]] + xs[1..];
    }
  }

  /** Reading the components of a formatted version gives the components back. */
  lemma FormatVersionRoundTrip(xs: seq<nat>)
    requires forall i | 0 <= i < |xs| :: xs[i] <= MaxInt64
    ensures Components(FormatVersion(xs)) == xs
  {
    var shown := ShowAll(xs);
    assert forall i | 0 <= i < |shown| :: '.' !in shown[i] by {
      forall i | 0 <= i < |shown| ensures '.' !in shown[i] {
        assert forall c | c in shown[i] :: IsDigit(c);
      }
    }
    NoVNoDotInJoinedDigits(shown);
    RemoveVNoV(FormatVersion(xs));
    SplitJoin(shown);
    ParseComponentsOfShown(xs);
  }

  /** Zero-padding to at least major.minor.patch. */
  function Pad(xs: seq<int>): (r: seq<int>)
    ensures |r| == if |xs| >= 3 then |xs| else 3
    ensures r[..|xs|] == xs
    ensures forall i | |xs| <= i < |r| :: r[i] == 0
  {
    xs + seq(if |xs| >= 3 then 0 else 3 - |xs|, _ => 0)
  }

  // ---------------------------------------------------------------------------
  // Ordering
  // ---------------------------------------------------------------------------

  /** Index `i` is the first index below both lengths where the lists differ,
      and there `latest` is larger. */
  ghost predicate NewerAt(current: seq<int>, latest: seq<int>, i: nat) {
    && i < |current| && i < |latest|
    && latest[i] > current[i]
    && forall j | 0 <= j < i :: latest[j] == current[j]
  }

  /** `latest` is newer than `current` in the lexicographic order restricted
      to the common length: components past the shorter list never count. */
  ghost predicate Newer(current: seq<int>, latest: seq<int>) {
    exists i: nat :: NewerAt(current, latest, i)
  }

  /** The loop `for i in 0..<min(...)` of `compareVersions`, from index `i` on. */
  function CompareFrom(current: seq<int>, latest: seq<int>, i: nat): (newer: bool)
    requires i <= |current| && i <= |latest|
    requires forall j | 0 <= j < i :: latest[j] == current[j]
    ensures newer <==> Newer(current, latest)
    decreases |current| - i
  {
    if i == |current| || i == |latest| then
      assert forall k: nat :: !NewerAt(current, latest, k);
      false
    else if latest[i] > current[i] then
      assert NewerAt(current, latest, i);
      true
    else if latest[i] < current[i] then
      assert forall k: nat :: !NewerAt(current, latest, k) by {
        forall k: nat ensures !NewerAt(current, latest, k) {
          if k > i && k < |current| && k < |latest| {
            assert !(latest[i] == current[i]);
          }
        }
      }
      false
    else
      CompareFrom(current, latest, i + 1)
  }

  /** `compareVersions(current:latest:)`: whether `latest` names a later release. */
  function CompareVersions(current: string, latest: string): (newer: bool)
    ensures newer <==> Newer(Pad(Components(current)), Pad(Components(latest)))
  {
    CompareFrom(Pad(Components(current)), Pad(Components(latest)), 0)
  }

  /** No component list is newer than itself. */
  lemma NewerIrreflexive(xs: seq<int>)
    ensures !Newer(xs, xs)
  {
  }

  /** Two component lists are never each newer than the other. */
  lemma NewerAsymmetric(a: seq<int>, b: seq<int>)
    ensures !(Newer(a, b) && Newer(b, a))
  {
    if Newer(a, b) {
      var i: nat :| NewerAt(a, b, i);
      forall j: nat ensures !NewerAt(b, a, j) {
        if j < i {
          assert b[j] == a[j];
        } else if i < j && j < |a| && j < |b| {
          assert !(a[i] == b[i]);
        }
      }
    }
  }

  lemma NewerTransitive(a: seq<int>, b: seq<int>, c: seq<int>)
    requires Newer(a, b) && Newer(b, c)
    ensures Newer(a, c)
  {
    var i: nat :| NewerAt(a, b, i);
    var j: nat :| NewerAt(b, c, j);
    var k := if i < j then i else j;
    assert NewerAt(a, c, k);
  }

  /** Extra trailing components are ignored: a list is never newer than one it extends, nor the reverse. */
  lemma NewerIgnoresExtension(xs: seq<int>, extra: seq<int>)
    ensures !Newer(xs, xs + extra) && !Newer(xs + extra, xs)
  {
    forall i: nat | i < |xs|
      ensures !NewerAt(xs, xs + extra, i) && !NewerAt(xs + extra, xs, i)
    {
      assert (xs + extra)[i] == xs[i];
    }
  }

  /** A version string is never an update to itself. */
  lemma CompareVersionsIrreflexive(v: string)
    ensures !CompareVersions(v, v)
  {
    NewerIrreflexive(Pad(Components(v)));
  }

  lemma CompareVersionsAsymmetric(a: string, b: string)
    ensures !(CompareVersions(a, b) && CompareVersions(b, a))
  {
    NewerAsymmetric(Pad(Components(a)), Pad(Components(b)));
  }

  /** Formatted versions compare by their component lists. */
  lemma CompareFormatted(xs: seq<nat>, ys: seq<nat>)
    requires forall i | 0 <= i < |xs| :: xs[i] <= MaxInt64
    requires forall i | 0 <= i < |ys| :: ys[i] <= MaxInt64
    ensures CompareVersions(FormatVersion(xs), FormatVersion(ys)) <==> Newer(Pad(xs), Pad(ys))
  {
    FormatVersionRoundTrip(xs);
    FormatVersionRoundTrip(ys);
  }

  /** Components past the third are never compared when one side lacks them. */
  lemma ExtensionIgnored(xs: seq<nat>, extra: seq<nat>)
    requires forall i | 0 <= i < |xs| :: xs[i] <= MaxInt64
    requires forall i | 0 <= i < |extra| :: extra[i] <= MaxInt64
    requires |xs| >= 3
    ensures !CompareVersions(FormatVersion(xs), FormatVersion(xs + extra))
    ensures !CompareVersions(FormatVersion(xs + extra), FormatVersion(xs))
  {
    CompareFormatted(xs, xs + extra);
    CompareFormatted(xs + extra, xs);
    assert Pad(xs) == xs && Pad(xs + extra) == xs + extra;
    NewerIgnoresExtension(xs, extra);
  }

  /** "1.0.0.1" and "1.0.0" compare as equal in both directions. */
  lemma FourthComponentIgnored()
    ensures !CompareVersions("1.0.0", "1.0.0.1") && !CompareVersions("1.0.0.1", "1.0.0")
  {
    assert ShowNat(0) == "0" && ShowNat(1) == "1";
    assert FormatVersion([1, 0, 0]) == "1.0.0";
    assert FormatVersion([1, 0, 0, 1]) == "1.0.0.1";
    assert [1, 0, 0] + [1] == [1, 0, 0, 1];
    ExtensionIgnored([1, 0, 0], [1]);
  }

  /** A short version and its zero-padded form compare as equal in both directions. */
  lemma PaddingIgnored(xs: seq<nat>)
    requires forall i | 0 <= i < |xs| :: xs[i] <= MaxInt64
    requires |xs| < 3
    ensures !CompareVersions(FormatVersion(xs), FormatVersion(xs + [0]))
    ensures !CompareVersions(FormatVersion(xs + [0]), FormatVersion(xs))
  {
    CompareFormatted(xs, xs + [0]);
    CompareFormatted(xs + [0], xs);
    assert Pad(xs + [0]) == Pad(xs);
    NewerIrreflexive(Pad(xs));
  }

  /** Missing components count as zero: "1.2" and "1.2.0" compare as equal. */
  lemma MissingComponentsAreZero()
    ensures !CompareVersions("1.2", "1.2.0") && !CompareVersions("1.2.0", "1.2")
  {
    assert ShowNat(0) == "0" && ShowNat(1) == "1" && ShowNat(2) == "2";
    assert FormatVersion([1, 2]) == "1.2";
    assert FormatVersion([1, 2, 0]) == "1.2.0";
    assert [1, 2] + [0] == [1, 2, 0];
    PaddingIgnored([1, 2]);
  }

  /** "1.x.2" splits into the pieces "1", "x", "2". */
  lemma PiecesOfOneXTwo()
    ensures SplitDots(RemoveV("1.x.2")) == ["1", "x", "2"]
  {
    var parts := ["1", "x", "2"];
    assert JoinDots(parts) == "1.x.2";
    SplitJoin(parts);
    RemoveVNoV("1.x.2");
  }

  /** The `x` of "1.x.2" is dropped: its components are 1, 2. */
  lemma ComponentsOfOneXTwo()
    ensures Components("1.x.2") == [1, 2]
  {
    PiecesOfOneXTwo();
    ParseOneXTwo();
  }

  lemma ParseOneXTwo()
    ensures ParseComponents(["1", "x", "2"]) == [1, 2]
  {
    ParseOneXTwoPieces();
    NonIntegerPieceDropped(["1"], "x", ["2"]);
    assert ["1"] + ["x"] + ["2"] == ["1", "x", "2"];
    assert ["1"] + ["2"] == ["1", "2"];
    assert ["1", "2"][1..] == ["2"];
  }

  lemma ParseOneXTwoPieces()
    ensures ParseInt("1") == Some(1) && ParseInt("2") == Some(2) && ParseInt("x").None?
  {
    ParseRejectsStray("x", 0);
  }

  lemma ComponentsOfOneTwo()
    ensures Components("1.2") == [1, 2]
  {
    assert ShowNat(2) == "2" && ShowNat(1) == "1";
    assert FormatVersion([1, 2]) == "1.2";
    FormatVersionRoundTrip([1, 2]);
  }

  /** A non-integer piece shifts the later components left instead of reading
      as zero: "1.x.2" compares as equal to "1.2.0", not to "1.0.2". */
  lemma NonIntegerComponentShifts()
    ensures !CompareVersions("1.2.0", "1.x.2") && !CompareVersions("1.x.2", "1.2.0")
    ensures CompareVersions("1.0.2", "1.x.2")
  {
    ComponentsOfOneXTwo();
    ComponentsOfOneTwo();
    MissingComponentsAreZero();
    NonIntegerComponentNotZero();
  }

  lemma ComponentsOfOneZeroTwo()
    ensures Components("1.0.2") == [1, 0, 2]
  {
    assert ShowNat(0) == "0" && ShowNat(1) == "1" && ShowNat(2) == "2";
    assert FormatVersion([1, 0, 2]) == "1.0.2";
    FormatVersionRoundTrip([1, 0, 2]);
  }

  lemma NonIntegerComponentNotZero()
    ensures CompareVersions("1.0.2", "1.x.2")
  {
    ComponentsOfOneXTwo();
    ComponentsOfOneZeroTwo();
    assert Pad([1, 0, 2]) == [1, 0, 2];
    assert Pad([1, 2]) == [1, 2, 0];
    assert NewerAt([1, 0, 2], [1, 2, 0], 1);
  }

  /** A doubled dot reads as a single one: the empty piece between is omitted
      by the split rather than read as a zero component. */
  lemma ComponentsIgnoreEmptyPieces(a: string, b: string)
    ensures Components(a + ".." + b) == Components(a + "." + b)
  {
    RemoveVAround(a, "..", b);
    RemoveVAround(a, ".", b);
    EmptyPiecesDropped(RemoveV(a), RemoveV(b));
  }

  lemma RemoveVAround(a: string, sep: string, b: string)
    requires 'v' !in sep
    ensures RemoveV(a + sep + b) == RemoveV(a) + sep + RemoveV(b)
  {
    RemoveVAppend(a + sep, b);
    RemoveVAppend(a, sep);
    RemoveVNoV(sep);
  }

  /** "1..2" has the components 1, 2, like "1.2". */
  lemma ComponentsOfOneDotDotTwo()
    ensures Components("1..2") == [1, 2]
  {
    ComponentsIgnoreEmptyPieces("1", "2");
    assert "1" + ".." + "2" == "1..2";
    assert "1" + "." + "2" == "1.2";
    ComponentsOfOneTwo();
  }

  /** A leading `v` on a tag does not change its components. */
  lemma ComponentsIgnoreVPrefix(s: string)
    ensures Components("v" + s) == Components(s)
  {
    RemoveVAppend("v", s);
    assert RemoveV("v") == "";
    assert RemoveV("v" + s) == RemoveV(s);
  }

  /** A `v`-prefixed tag whose components are newer, at full length, is reported as an update. */
  lemma PrefixedNewer(xs: seq<nat>, ys: seq<nat>, i: nat)
    requires forall k | 0 <= k < |xs| :: xs[k] <= MaxInt64
    requires forall k | 0 <= k < |ys| :: ys[k] <= MaxInt64
    requires |xs| >= 3 && |ys| >= 3 && NewerAt(xs, ys, i)
    ensures CompareVersions(FormatVersion(xs), "v" + FormatVersion(ys))
  {
    ComponentsIgnoreVPrefix(FormatVersion(ys));
    CompareFormatted(xs, ys);
    assert Pad(xs) == xs && Pad(ys) == ys;
  }

  /** A tag with a `v` prefix is compared by its digits: "v1.10.0" is newer
      than "1.2.0" (10 > 2 as integers, although "10" < "2" as text). */
  lemma PrefixedTagIsNewer()
    ensures CompareVersions(FormatVersion([1, 2, 0]), "v" + FormatVersion([1, 10, 0]))
  {
    PrefixedNewer([1, 2, 0], [1, 10, 0], 1);
  }

  /** `Components` already ignores every `v`, so cleaning the tag first changes nothing. */
  lemma ComponentsOfCleanedTag(tag: string)
    ensures Components(RemoveV(tag)) == Components(tag)
  {
    RemoveVNoV(RemoveV(tag));
  }

  // ---------------------------------------------------------------------------
  // Checker state
  // ---------------------------------------------------------------------------

  const MaxRetries: nat := 3
  const InvalidResponseMessage: string := "Invalid response from server"

  /** The published state of an `UpdateChecker`, with its private retry counter. */
  datatype CheckerState = CheckerState(
    isChecking: bool,
    retryCount: nat,
    error: Option<string>,
    updateAvailable: bool,
    latestVersion: Option<string>,
    releaseNotes: Option<string>)

  /** The state right after `init()`. */
  const Initial: CheckerState := CheckerState(false, 0, None, false, None, None)

  /** The retry counter never exceeds `maxRetries`. */
  predicate Valid(s: CheckerState) {
    s.retryCount <= MaxRetries
  }

  /** A state change, and whether it sent a request to the releases endpoint. */
  datatype Step = Step(state: CheckerState, requestSent: bool)

  /** `checkForUpdates()`: a check already in progress is a no-op; otherwise the
      checker marks itself busy, clears the error and sends the request. */
  function CheckForUpdates(s: CheckerState): (r: Step)
    ensures s.isChecking ==> r == Step(s, false)
    ensures !s.isChecking ==> r.requestSent && r.state.isChecking && r.state.error == None
    ensures r.state.retryCount == s.retryCount && r.state.latestVersion == s.latestVersion
    ensures r.state.updateAvailable == s.updateAvailable && r.state.releaseNotes == s.releaseNotes
  {
    if s.isChecking then Step(s, false)
    else Step(s.(isChecking := true, error := None), true)
  }

  /** The outcome of `handleNetworkError`: the new state, and whether a retry
      (a later call of `checkForUpdates`) was scheduled. */
  datatype ErrorStep = ErrorStep(state: CheckerState, retryScheduled: bool)

  /** `handleNetworkError`: below `maxRetries` the counter is incremented and a
      retry scheduled; at the limit the counter is reset, the error is set and
      the checker stops checking. */
  function HandleNetworkError(s: CheckerState, description: string): (r: ErrorStep)
    ensures r.retryScheduled <==> s.retryCount < MaxRetries
    ensures r.retryScheduled ==> r.state == s.(retryCount := s.retryCount + 1)
    ensures !r.retryScheduled ==> !r.state.isChecking && r.state.retryCount == 0
    ensures !r.retryScheduled ==> r.state.error == Some("Network error: " + description)
    ensures r.state.latestVersion == s.latestVersion && r.state.updateAvailable == s.updateAvailable
    ensures r.state.releaseNotes == s.releaseNotes
    ensures Valid(s) ==> Valid(r.state)
  {
    if s.retryCount < MaxRetries then
      ErrorStep(s.(retryCount := s.retryCount + 1), true)
    else
      ErrorStep(s.(retryCount := 0, error := Some("Network error: " + description), isChecking := false), false)
  }

  /** A network error followed by the retry it schedules, as written: the retry
      goes through `checkForUpdates`, whose guard sees `isChecking` still set. */
  function RetryAsWritten(s: CheckerState, description: string): (r: Step)
    ensures Valid(s) ==> Valid(r.state)
  {
    var e := HandleNetworkError(s, description);
    if e.retryScheduled then CheckForUpdates(e.state) else Step(e.state, false)
  }

  /** The first network error after a check from the initial state leaves the
      checker busy for good: the retry sends nothing, no error is shown, and
      every later `checkForUpdates` (the daily timer) is a no-op as well. */
  lemma RetryAsWrittenWedges(description: string)
    ensures var sent := CheckForUpdates(Initial);
            var r := RetryAsWritten(sent.state, description);
            && sent.requestSent
            && !r.requestSent
            && r.state.isChecking
            && r.state.error == None
            && CheckForUpdates(r.state) == Step(r.state, false)
  {
  }

  /** A network error with the retry sending the request again, as intended:
      the guard of `checkForUpdates` is not applied to a retry of the check in progress. */
  function RetryCorrected(s: CheckerState, description: string): (r: Step)
    ensures Valid(s) ==> Valid(r.state)
  {
    var e := HandleNetworkError(s, description);
    if e.retryScheduled then Step(e.state, true) else Step(e.state, false)
  }

  /** While a check is in progress, a network error re-sends the request exactly
      when retries remain, and otherwise ends the check with an error shown. */
  lemma RetryCorrectedResends(s: CheckerState, description: string)
    requires s.isChecking && Valid(s)
    ensures var r := RetryCorrected(s, description);
            && (r.requestSent <==> s.retryCount < MaxRetries)
            && (r.requestSent ==> r.state.isChecking && r.state.retryCount == s.retryCount + 1)
            && (!r.requestSent ==> !r.state.isChecking && r.state.error.Some? && r.state.retryCount == 0)
  {
  }

  /** From a fresh check, three network errors re-send the request three times
      and the fourth gives up, leaving the checker idle with the error shown. */
  lemma FourthErrorGivesUp(description: string)
    ensures var s0 := CheckForUpdates(Initial).state;
            var r1 := RetryCorrected(s0, description);
            var r2 := RetryCorrected(r1.state, description);
            var r3 := RetryCorrected(r2.state, description);
            var r4 := RetryCorrected(r3.state, description);
            && r1.requestSent && r2.requestSent && r3.requestSent && !r4.requestSent
            && !r4.state.isChecking && r4.state.retryCount == 0
            && r4.state.error == Some("Network error: " + description)
  {
  }

  /** The decoded release fields the checker uses. */
  datatype Release = Release(tagName: string, body: string, htmlUrl: string)

  /** What `handleUpdateResponse` received: no response, a non-200 status or no
      data; a body that does not decode; or a decoded release. */
  datatype Response = Invalid | Undecodable(description: string) | Decoded(release: Release)

  /** The state after `processRelease`, and whether `onUpdateAvailable` was called. */
  datatype ReleaseStep = ReleaseStep(state: CheckerState, notified: bool)

  /** `processRelease`: the tag is stored without its `v`s and compared with the
      running version. */
  function ProcessRelease(s: CheckerState, currentVersion: string, release: Release): (r: ReleaseStep)
    ensures r.state.latestVersion == Some(RemoveV(release.tagName)) && 'v' !in r.state.latestVersion.value
    ensures r.state.updateAvailable <==> Newer(Pad(Components(currentVersion)), Pad(Components(release.tagName)))
    ensures r.notified <==> r.state.updateAvailable
    ensures r.state.releaseNotes == Some(release.body)
    ensures r.state.isChecking == s.isChecking && r.state.retryCount == s.retryCount && r.state.error == s.error
  {
    var clean := RemoveV(release.tagName);
    ComponentsOfCleanedTag(release.tagName);
    var available := CompareVersions(currentVersion, clean);
    ReleaseStep(s.(updateAvailable := available, latestVersion := Some(clean), releaseNotes := Some(release.body)), available)
  }

  /** `handleUpdateResponse`: whatever arrived, the check ends; an invalid or
      undecodable response sets the error, a release is processed. */
  function HandleUpdateResponse(s: CheckerState, currentVersion: string, response: Response): (r: ReleaseStep)
    ensures !r.state.isChecking
    ensures r.state.retryCount == s.retryCount
    ensures response.Invalid? ==> r.state.error == Some(InvalidResponseMessage) && !r.notified
    ensures response.Undecodable? ==> r.state.error == Some(response.description) && !r.notified
    ensures response.Decoded? ==>
              && r.state.error == s.error
              && r.state.latestVersion == Some(RemoveV(response.release.tagName))
              && (r.state.updateAvailable <==>
                    Newer(Pad(Components(currentVersion)), Pad(Components(response.release.tagName))))
              && r.state.releaseNotes == Some(response.release.body)
              && (r.notified <==> r.state.updateAvailable)
    ensures !response.Decoded? ==>
              && r.state.latestVersion == s.latestVersion && r.state.updateAvailable == s.updateAvailable
              && r.state.releaseNotes == s.releaseNotes
  {
    match response
    case Invalid => ReleaseStep(s.(error := Some(InvalidResponseMessage), isChecking := false), false)
    case Undecodable(d) => ReleaseStep(s.(error := Some(d), isChecking := false), false)
    case Decoded(release) =>
      var p := ProcessRelease(s, currentVersion, release);
      ReleaseStep(p.state.(isChecking := false), p.notified)
  }

  /** Every transition keeps the retry counter within `0..maxRetries`. */
  lemma TransitionsPreserveValid(s: CheckerState, currentVersion: string, description: string, response: Response)
    requires Valid(s)
    ensures Valid(CheckForUpdates(s).state)
    ensures Valid(HandleNetworkError(s, description).state)
    ensures Valid(RetryAsWritten(s, description).state)
    ensures Valid(RetryCorrected(s, description).state)
    ensures Valid(HandleUpdateResponse(s, currentVersion, response).state)
  {
  }
}
