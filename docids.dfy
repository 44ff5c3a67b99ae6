/**
 * `read_docids`: the set of required document identifiers, one per line of
 * the identifier list, each stripped of surrounding whitespace.
 */
module DocIds {
  import opened Text

  /** The identifier each line holds, line by line. */
  function Stripped(lines: seq<string>): seq<string>
  {
    seq(|lines|, i requires 0 <= i < |lines| => Strip(lines[i]))
  }

  function Elements<T>(s: seq<T>): set<T> {
    set x | x in s
  }

  predicate Distinct<T(==)>(s: seq<T>) {
    forall i, j :: 0 <= i < j < |s| ==> s[i] != s[j]
  }

  /** The set of identifiers that `read_docids` builds from `lines`. */
  function DocidSet(lines: seq<string>): set<string> {
    Elements(Stripped(lines))
  }

  /** A sequence has at most as many distinct elements as entries, and
      exactly as many when no entry repeats. */
  lemma {:induction false} ElementsSize<T>(s: seq<T>)
    ensures |Elements(s)| <= |s|
    ensures |Elements(s)| == |s| <==> Distinct(s)
  {
    if s != [] {
      var n := |s| - 1;
      var init := s[..n];
      ElementsSize(init);
      assert s == init + [s[n]];
      assert Elements(s) == Elements(init) + {s[n]};
      if s[n] in init {
        var i :| 0 <= i < n && init[i] == s[n];
        assert s[i] == s[n];
      } else {
        assert |Elements(s)| == |Elements(init)| + 1;
        if Distinct(init) {
          forall i, j | 0 <= i < j < |s|
            ensures s[i] != s[j]
          {
            assert s[i] == init[i];
            if j < n {
              assert s[j] == init[j];
            }
          }
        } else {
          var i, j :| 0 <= i < j < n && init[i] == init[j];
          assert s[i] == init[i] && s[j] == init[j];
        }
      }
    }
  }

  /** What the identifier list's size says about duplicates, in terms of
      the lines: never more identifiers than lines, and exactly as many when
      no two lines strip to the same identifier. */
  lemma DocidSetSize(lines: seq<string>)
    ensures |DocidSet(lines)| <= |lines|
    ensures |DocidSet(lines)| == |lines| <==>
      forall i, j :: 0 <= i < j < |lines| ==> Strip(lines[i]) != Strip(lines[j])
  {
    var ids := Stripped(lines);
    assert |ids| == |lines|;
    assert forall i :: 0 <= i < |lines| ==> ids[i] == Strip(lines[i]);
    ElementsSize(ids);
  }

  /** An identifier is in the set exactly when some line strips to it. */
  lemma DocidSetMembers(lines: seq<string>)
    ensures forall id :: id in DocidSet(lines) <==> exists i :: 0 <= i < |lines| && Strip(lines[i]) == id
  {
    var ids := Stripped(lines);
    forall i | 0 <= i < |lines|
      ensures Strip(lines[i]) in ids
    {
      assert ids[i] == Strip(lines[i]);
    }
    forall id | id in ids
      ensures exists i :: 0 <= i < |lines| && Strip(lines[i]) == id
    {
      var k :| 0 <= k < |ids| && ids[k] == id;
      assert Strip(lines[k]) == id;
    }
  }

  /** `read_docids(docid_list)` over the lines of the file. It returns the set
      and the number of lines read, which the source prints beside the set's
      size. */
  method ReadDocids(lines: seq<string>) returns (requiredDocids: set<string>, count: nat)
    ensures forall id :: id in requiredDocids <==> exists i :: 0 <= i < |lines| && Strip(lines[i]) == id
    ensures requiredDocids == DocidSet(lines)
    ensures count == |lines|
    ensures |requiredDocids| <= count
    ensures |requiredDocids| == count <==>
      forall i, j :: 0 <= i < j < |lines| ==> Strip(lines[i]) != Strip(lines[j])
  {
    ghost var ids := Stripped(lines);
    assert |ids| == |lines|;
    requiredDocids := {};
    count := 0;
    for i := 0 to |lines|
      invariant requiredDocids == Elements(ids[..i])
      invariant count == i
    {
      var docid := Strip(lines[i]);
      assert ids[i] == docid;
      assert ids[..i + 1] == ids[..i] + [docid];
      requiredDocids := requiredDocids + {docid};
      count := count + 1;
    }
    assert ids[..|lines|] == ids;
    DocidSetMembers(lines);
    DocidSetSize(lines);
  }
}
