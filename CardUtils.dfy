/**
 * `joinTags` (src/utils/cardUtils.js): an entry's tags joined with a middle
 * dot between spaces, as `Array.prototype.join(" · ")` does.
 */
module CardUtils {
  import opened Wrappers
  import opened Utils

  /** The middle dot U+00B7. */
  const MiddleDot: char := '\U{00B7}'

  /** The separator `" · "`. */
  const Separator: string := [' ', MiddleDot, ' ']

  /** The summed length of the tags. */
  function TotalLength(tags: seq<string>): nat
  {
    if tags == [] then 0 else |tags[0]| + TotalLength(tags[1..])
  }

  /** `tags.join(" · ")`. */
  function Join(tags: seq<string>): (r: string)
    ensures |r| == TotalLength(tags) + (if tags == [] then 0 else 3 * (|tags| - 1))
  {
    if tags == [] then ""
    else if |tags| == 1 then tags[0]
    else tags[0] + Separator + Join(tags[1..])
  }

  /** `joinTags(entry)`: no tags give `""`, a single tag gives that tag. */
  function JoinTags(e: Entry): (r: string)
    ensures e.data.tags == [] ==> r == ""
    ensures |e.data.tags| == 1 ==> r == e.data.tags[0]
    ensures |e.data.tags| >= 1 ==> |r| == TotalLength(e.data.tags) + 3 * (|e.data.tags| - 1)
  {
    Join(e.data.tags)
  }

  /** Where tag `k` starts in the joined string: the tags before it and one separator after each. */
  function Offset(tags: seq<string>, k: nat): nat
    requires k <= |tags|
  {
    TotalLength(tags[..k]) + 3 * k
  }

  lemma {:induction false} TotalLengthSnoc(tags: seq<string>, t: string)
    ensures TotalLength(tags + [t]) == TotalLength(tags) + |t|
    decreases tags
  {
    if tags != [] {
      assert (tags + [t])[1..] == tags[1..] + [t];
      TotalLengthSnoc(tags[1..], t);
    }
  }

  lemma {:induction false} OffsetStep(tags: seq<string>, k: nat)
    requires 0 < k <= |tags|
    ensures Offset(tags, k) == |tags[0]| + 3 + Offset(tags[1..], k - 1)
  {
    assert tags[..k][0] == tags[0] && tags[..k][1..] == tags[1..][..k - 1];
  }

  /** `s` holds `t` at offset `o`, followed by the separator when `sep` holds. */
  predicate TagAt(s: string, o: nat, t: string, sep: bool)
  {
    o + |t| + (if sep then 3 else 0) <= |s| &&
    s[o..o + |t|] == t &&
    (sep ==> s[o + |t|..o + |t| + 3] == Separator)
  }

  /** Text put in front moves a tag's place by its length. */
  lemma TagAtShift(head: string, rest: string, o: nat, t: string, sep: bool)
    requires TagAt(rest, o, t, sep)
    ensures TagAt(head + rest, |head| + o, t, sep)
  {
    var s := head + rest;
    assert s[|head| + o..|head| + o + |t|] == rest[o..o + |t|];
    if sep {
      assert s[|head| + o + |t|..|head| + o + |t| + 3] == rest[o + |t|..o + |t| + 3];
    }
  }

  /**
   * The joined string holds tag `k` at `Offset(tags, k)`, followed by the
   * separator unless it is the last tag: the tags in order, separated by
   * `" · "`.
   */
  lemma {:induction false} JoinLayout(tags: seq<string>, k: nat)
    requires k < |tags|
    ensures TagAt(Join(tags), Offset(tags, k), tags[k], k + 1 < |tags|)
    decreases k
  {
    if k == 0 {
      assert tags[..0] == [];
      if |tags| > 1 {
        var s := tags[0] + Separator + Join(tags[1..]);
        assert s[..|tags[0]|] == tags[0];
        assert s[|tags[0]|..|tags[0]| + 3] == Separator;
      }
    } else {
      var head := tags[0] + Separator;
      JoinLayout(tags[1..], k - 1);
      assert tags[1..][k - 1] == tags[k];
      TagAtShift(head, Join(tags[1..]), Offset(tags[1..], k - 1), tags[k], k + 1 < |tags|);
      OffsetStep(tags, k);
    }
  }

  /** The separator occurs in `s` at index `j`. */
  predicate SeparatorAt(s: string, j: int)
  {
    0 <= j && j + 3 <= |s| && s[j..j + 3] == Separator
  }

  /** The first place the separator occurs in `s`. */
  function FindSeparator(s: string): (r: Option<nat>)
    ensures r.Some? ==> SeparatorAt(s, r.value)
    ensures r.Some? ==> forall j :: 0 <= j < r.value ==> !SeparatorAt(s, j)
    ensures r.None? ==> forall j :: !SeparatorAt(s, j)
  {
    if |s| < 3 then None
    else if s[..3] == Separator then Some(0)
    else
      assert forall j :: 1 <= j ==> (SeparatorAt(s, j) <==> SeparatorAt(s[1..], j - 1)) by {
        forall j | 1 <= j
          ensures SeparatorAt(s, j) <==> SeparatorAt(s[1..], j - 1)
        {
          if j + 3 <= |s| {
            assert s[j..j + 3] == s[1..][j - 1..j + 2];
          }
        }
      }
      match FindSeparator(s[1..])
      case None => None
      case Some(i) => Some(i + 1)
  }

  /** `s.split(" · ")`: the pieces between occurrences of the separator. */
  function Split(s: string): (r: seq<string>)
    ensures r != []
    decreases |s|
  {
    match FindSeparator(s)
    case None => [s]
    case Some(i) => [s[..i]] + Split(s[i + 3..])
  }

  /** The separator's middle character is the middle dot, so no separator sits where that character is another. */
  lemma NotSeparatorAt(s: string, j: int)
    requires 0 <= j && j + 1 < |s| && s[j + 1] != MiddleDot
    ensures !SeparatorAt(s, j)
  {
    if j + 3 <= |s| {
      assert s[j..j + 3][1] == s[j + 1];
    }
  }

  /** A string without a middle dot contains no separator. */
  lemma NoSeparatorWithoutDot(s: string)
    requires MiddleDot !in s
    ensures forall j :: !SeparatorAt(s, j)
  {
    forall j | 0 <= j && j + 1 < |s|
      ensures !SeparatorAt(s, j)
    {
      NotSeparatorAt(s, j);
    }
  }

  /** In `t + " · " + rest`, with no middle dot in `t`, the first separator is the one after `t`. */
  lemma FirstSeparatorAfter(t: string, rest: string)
    requires MiddleDot !in t
    ensures FindSeparator(t + Separator + rest) == Some(|t|)
  {
    var s := t + Separator + rest;
    forall j | 0 <= j < |t|
      ensures !SeparatorAt(s, j)
    {
      if j + 1 < |t| {
        assert s[j + 1] == t[j + 1];
      } else {
        assert s[j + 1] == Separator[0];
      }
      NotSeparatorAt(s, j);
    }
    assert s[|t|..|t| + 3] == Separator;
    assert SeparatorAt(s, |t|);
    var r := FindSeparator(s);
    assert r.Some? && !(r.value < |t|) && !(r.value > |t|);
  }

  /**
   * Splitting a non-empty list's join gives the list back when no tag holds
   * a middle dot.  (Ruling out the whole separator is not enough: `["x ·",
   * "y"]` joins to `"x · · y"`, which splits as `["x", "· y"]`.)
   */
  lemma {:induction false} SplitJoin(tags: seq<string>)
    requires tags != []
    requires forall k :: 0 <= k < |tags| ==> MiddleDot !in tags[k]
    ensures Split(Join(tags)) == tags
    decreases |tags|
  {
    var t := tags[0];
    if |tags| == 1 {
      NoSeparatorWithoutDot(t);
    } else {
      var rest := Join(tags[1..]);
      var s := t + Separator + rest;
      FirstSeparatorAfter(t, rest);
      assert s[..|t|] == t && s[|t| + 3..] == rest;
      SplitJoin(tags[1..]);
    }
  }

  /**
   * Why `SplitJoin` rules out the middle dot itself: a tag ending in `" ·"`
   * holds no separator, yet joined to the next tag it makes a separator
   * whose first match starts inside it.
   */
  lemma SplitJoinNeedsNoDot()
    ensures FindSeparator("x " + [MiddleDot]).None? && FindSeparator("y").None?
    ensures Join(["x " + [MiddleDot], "y"]) == "x " + [MiddleDot] + Separator + "y"
    ensures Split(Join(["x " + [MiddleDot], "y"])) == ["x", [MiddleDot] + " y"]
  {
    var t := "x " + [MiddleDot];
    assert t[..3] != Separator by { assert t[1] != MiddleDot; }
    assert |t[1..]| < 3;
    var s := t + Separator + "y";
    assert Join(["x " + [MiddleDot], "y"]) == s;
    assert s[..3] != Separator by { assert s[1] != MiddleDot; }
    assert s[1..][..3] == Separator;
    assert FindSeparator(s) == Some(1);
    var rest := s[4..];
    assert rest == [MiddleDot] + " y";
    NotSeparatorAt(rest, 0);
    assert |rest[1..]| < 3;
    assert FindSeparator(rest) == None;
    assert Split(rest) == [rest];
    assert s[..1] == "x";
    assert Split(s) == [s[..1]] + Split(s[1 + 3..]);
  }

  /** The joined tags of an entry, split again, are its tags. */
  lemma JoinTagsRoundTrip(e: Entry)
    requires e.data.tags != []
    requires forall k :: 0 <= k < |e.data.tags| ==> MiddleDot !in e.data.tags[k]
    ensures Split(JoinTags(e)) == e.data.tags
  {
    SplitJoin(e.data.tags);
  }
}
