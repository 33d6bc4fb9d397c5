/**
 * The metadata dictionary of one file and the optional key filter applied to
 * it before display.  A Python dict is modelled as a sequence of
 * (key, value) pairs in insertion order.
 */
module Metadata {
  import opened Wrappers
  import opened PyStr

  /** Keys of a dict are unique. */
  ghost predicate DistinctKeys<V>(m: seq<(string, V)>) {
    forall i, j :: 0 <= i < j < |m| ==> m[i].0 != m[j].0
  }

  /**
   * `{k: v for k, v in m.items() if f in k}`: the entries whose key contains
   * `f`, in their original order and with their values.
   */
  function KeyFilter<V>(m: seq<(string, V)>, f: string): (r: seq<(string, V)>)
    ensures |r| <= |m|
    ensures forall i :: 0 <= i < |r| ==> r[i] in m && Contains(r[i].0, f)
    ensures forall i :: 0 <= i < |m| && Contains(m[i].0, f) ==> m[i] in r
  {
    if m == [] then []
    else (if Contains(m[0].0, f) then [m[0]] else []) + KeyFilter(m[1..], f)
  }

  /** Filtering a concatenation filters each part: the order of entries is kept. */
  lemma {:induction false} KeyFilterAppend<V>(a: seq<(string, V)>, b: seq<(string, V)>, f: string)
    ensures KeyFilter(a + b, f) == KeyFilter(a, f) + KeyFilter(b, f)
  {
    if a == [] {
      assert a + b == b;
    } else {
      assert (a + b)[0] == a[0];
      assert (a + b)[1..] == a[1..] + b;
      KeyFilterAppend(a[1..], b, f);
    }
  }

  /** The filter keeps a single entry exactly when its key contains `f`. */
  lemma KeyFilterSingle<V>(e: (string, V), f: string)
    ensures KeyFilter([e], f) == if IsSubstring(f, e.0) then [e] else []
  {
    ContainsIsSubstring(e.0, f);
    assert [e][1..] == [];
  }

  /** The empty filter keeps every entry: `"" in k` holds for every key. */
  lemma {:induction false} KeyFilterEmpty<V>(m: seq<(string, V)>)
    ensures KeyFilter(m, "") == m
  {
    if m != [] {
      assert m[0].0[..0] == "";
      KeyFilterEmpty(m[1..]);
    }
  }

  /** Filtering twice with the same string is filtering once. */
  lemma {:induction false} KeyFilterIdempotent<V>(m: seq<(string, V)>, f: string)
    ensures KeyFilter(KeyFilter(m, f), f) == KeyFilter(m, f)
  {
    if m != [] {
      var head := if Contains(m[0].0, f) then [m[0]] else [];
      KeyFilterAppend(head, KeyFilter(m[1..], f), f);
      KeyFilterIdempotent(m[1..], f);
      if Contains(m[0].0, f) {
        assert [m[0]][1..] == [];
      }
    }
  }

  /** A filtered dict still has unique keys, since it keeps a subsequence of entries. */
  lemma {:induction false} KeyFilterDistinct<V>(m: seq<(string, V)>, f: string)
    requires DistinctKeys(m)
    ensures DistinctKeys(KeyFilter(m, f))
  {
    if m != [] {
      KeyFilterDistinct(m[1..], f);
      var rest := KeyFilter(m[1..], f);
      forall i | 0 <= i < |rest| ensures rest[i].0 != m[0].0 {
        var j :| 0 <= j < |m[1..]| && m[1..][j] == rest[i];
        assert m[j + 1] == rest[i];
      }
    }
  }

  /**
   * The filter step of `metadata`: `if filter:` skips both `None` and the
   * empty string, otherwise only keys containing the filter are kept.
   */
  function FilterMetadata<V>(m: seq<(string, V)>, filter: Option<string>): (r: seq<(string, V)>)
    ensures filter.None? || filter == Some("") ==> r == m
    ensures filter.Some? ==> forall i :: 0 <= i < |r| ==> r[i] in m && IsSubstring(filter.value, r[i].0)
    ensures filter.Some? ==> forall i :: 0 <= i < |m| && IsSubstring(filter.value, m[i].0) ==> m[i] in r
  {
    match filter
    case None => m
    case Some(f) =>
      if f == "" then
        assert forall i :: 0 <= i < |m| ==> OccursAt(f, m[i].0, 0);
        m
      else
        var r := KeyFilter(m, f);
        assert forall i :: 0 <= i < |r| ==> (Contains(r[i].0, f) <==> IsSubstring(f, r[i].0)) by {
          forall i | 0 <= i < |r| { ContainsIsSubstring(r[i].0, f); }
        }
        assert forall i :: 0 <= i < |m| ==> (Contains(m[i].0, f) <==> IsSubstring(f, m[i].0)) by {
          forall i | 0 <= i < |m| { ContainsIsSubstring(m[i].0, f); }
        }
        r
  }

  /** The `if filter:` guard is only a shortcut: the comprehension alone gives the same dict. */
  lemma FilterMetadataIsKeyFilter<V>(m: seq<(string, V)>, filter: Option<string>)
    ensures FilterMetadata(m, filter) == KeyFilter(m, filter.GetOr(""))
  {
    KeyFilterEmpty(m);
  }

  /** `get_metadata(filepath)[0]` on an empty result list raises `IndexError`. */
  datatype FetchError = NoRecord

  /**
   * `metadata(filepath, filter)`: the first record the extractor returned,
   * filtered; the extractor's result list is an input.
   */
  function FetchMetadata<V>(records: seq<seq<(string, V)>>, filter: Option<string>): (r: Result<seq<(string, V)>, FetchError>)
    ensures r.Failure? <==> records == []
    ensures r.Success? ==> |r.value| <= |records[0]|
    ensures r.Success? ==> forall i :: 0 <= i < |r.value| ==> r.value[i] in records[0]
    ensures r.Success? ==> r.value == FilterMetadata(records[0], filter)
  {
    if records == [] then Failure(NoRecord) else Success(FilterMetadata(records[0], filter))
  }
}
