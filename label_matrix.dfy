/**
 * The multi-label target encoder of ml-pipeline/data_utils.py: each movie's list
 * of provider genre ids becomes a multi-hot row over the vocabulary `AllGenres`,
 * and the texts are paired with those rows position by position.
 */
module LabelMatrix {
  import opened Wrappers
  import opened StringOrder
  import opened GenreCatalog

  /** A movie record; only the two columns the encoder reads are kept. */
  datatype Movie = Movie(overview: string, genreIds: Option<seq<int>>)

  /** A data frame of movies: its row labels (`df.index`) and its rows in order. */
  datatype Frame = Frame(index: seq<int>, rows: seq<Movie>)

  /** The frame carries the default row labels 0, 1, ..., n-1. */
  predicate DefaultIndex(df: Frame)
  {
    |df.index| == |df.rows| && forall p :: 0 <= p < |df.index| ==> df.index[p] == p
  }

  /** `row['genre_ids'] or []`: a missing or empty list is no ids at all. */
  function IdsOf(genreIds: Option<seq<int>>): (ids: seq<int>)
    ensures ids == [] <==> genreIds == None || genreIds == Some([])
    ensures genreIds.Some? ==> ids == genreIds.value
  {
    match genreIds
    case None => []
    case Some(ids) => ids
  }

  /**
   * `{g: i for i, g in enumerate(names)}`: each name to its position; a later
   * duplicate would overwrite an earlier one.
   */
  function NameToIdx(names: seq<string>): (m: map<string, int>)
    ensures m.Keys == Elems(names)
    ensures forall g :: g in m ==> 0 <= m[g] < |names| && names[m[g]] == g
  {
    if names == [] then map[]
    else
      var k := |names| - 1;
      var m := NameToIdx(names[..k]);
      assert Elems(names) == Elems(names[..k]) + {names[k]} by {
        assert names == names[..k] + [names[k]];
      }
      m[names[k] := k]
  }

  /** In a vocabulary without duplicates every name maps back to its own position. */
  lemma NameToIdxOfAscending(names: seq<string>, j: int)
    requires StrictlyAscending(names)
    requires 0 <= j < |names|
    ensures NameToIdx(names)[names[j]] == j
  {
    var m := NameToIdx(names);
    assert names[j] in Elems(names);
    var k := m[names[j]];
    if k != j {
      if k < j {
        assert Less(names[k], names[j]);
      } else {
        assert Less(names[j], names[k]);
      }
      LessIrreflexive(names[j]);
    }
  }

  /** The effect of one id on a row: its genre's column becomes 1; an unknown id is skipped. */
  function Mark(row: seq<int>, gid: int): (r: seq<int>)
    requires |row| == |AllGenres|
    ensures |r| == |AllGenres|
  {
    match Lookup(gid)
    case None => row
    case Some(name) => row[NameToIdx(AllGenres)[name] := 1]
  }

  /** The row the encoder builds for one id list: zeros, then each id in turn. */
  function Row(ids: seq<int>): (r: seq<int>)
    ensures |r| == |AllGenres|
  {
    if ids == [] then seq(|AllGenres|, _ => 0)
    else Mark(Row(ids[..|ids| - 1]), ids[|ids| - 1])
  }

  /** One more id of the list is one more `Mark`. */
  lemma RowStep(ids: seq<int>, k: int)
    requires 0 <= k < |ids|
    ensures Row(ids[..k + 1]) == Mark(Row(ids[..k]), ids[k])
  {
    assert ids[..k + 1][..k] == ids[..k];
  }

  /** What a set cell means: some id of the list is a known id whose name is `g`. */
  predicate Hot(ids: seq<int>, g: string)
  {
    exists gid :: gid in ids && gid in TmdbGenres && TmdbGenres[gid] == g
  }

  /** Each cell is 1 exactly when its genre is named by a known id of the list, else 0. */
  lemma {:induction false} RowCell(ids: seq<int>, j: int)
    requires 0 <= j < |AllGenres|
    ensures Row(ids)[j] == 1 <==> Hot(ids, AllGenres[j])
    ensures Row(ids)[j] == 0 <==> !Hot(ids, AllGenres[j])
  {
    if ids != [] {
      var init, last := ids[..|ids| - 1], ids[|ids| - 1];
      assert ids == init + [last];
      RowCell(init, j);
      AllGenresAscending();
      var g := AllGenres[j];
      match Lookup(last)
      case None =>
        assert Hot(ids, g) <==> Hot(init, g);
      case Some(name) =>
        var k := NameToIdx(AllGenres)[name];
        assert AllGenres[k] == name;
        if k == j {
          assert Hot(ids, g);
        } else {
          NameToIdxOfAscending(AllGenres, j);
          assert name != g;
          assert Hot(ids, g) <==> Hot(init, g);
        }
    }
  }

  /**
   * The known ids of a list (`[g for g in ids if g in TMDB_GENRES]`). The body keeps
   * the list's order and repetitions, so `RowOnesBound` counts every occurrence of
   * a known id; the ensures state only which ids occur and the length bound.
   */
  function KnownIds(ids: seq<int>): (r: seq<int>)
    ensures forall gid :: gid in r <==> gid in ids && gid in TmdbGenres
    ensures |r| <= |ids|
  {
    if ids == [] then []
    else
      var init, last := ids[..|ids| - 1], ids[|ids| - 1];
      assert ids == init + [last];
      KnownIds(init) + (if last in TmdbGenres then [last] else [])
  }

  /** The number of cells equal to 1. */
  function Ones(row: seq<int>): nat
  {
    if row == [] then 0 else (if row[0] == 1 then 1 else 0) + Ones(row[1..])
  }

  lemma {:induction false} OnesSetOne(row: seq<int>, k: int)
    requires 0 <= k < |row|
    ensures Ones(row[k := 1]) <= Ones(row) + 1
  {
    if k > 0 {
      OnesSetOne(row[1..], k - 1);
      assert row[k := 1][1..] == row[1..][k - 1 := 1];
    } else {
      assert row[k := 1][1..] == row[1..];
    }
  }

  /** A row has no more 1s than the list has known ids. */
  lemma {:induction false} RowOnesBound(ids: seq<int>)
    ensures Ones(Row(ids)) <= |KnownIds(ids)|
  {
    if ids == [] {
      OnesZeros(|AllGenres|);
    } else {
      var init, last := ids[..|ids| - 1], ids[|ids| - 1];
      RowOnesBound(init);
      match Lookup(last)
      case None =>
      case Some(name) =>
        OnesSetOne(Row(init), NameToIdx(AllGenres)[name]);
    }
  }

  lemma {:induction false} OnesZeros(n: nat)
    ensures Ones(seq(n, _ => 0)) == 0
  {
    if n > 0 {
      assert seq(n, _ => 0)[1..] == seq(n - 1, _ => 0);
      OnesZeros(n - 1);
    }
  }

  /** Unknown ids contribute nothing: dropping them leaves the row as it was. */
  lemma UnknownIdsIgnored(ids: seq<int>)
    ensures Row(ids) == Row(KnownIds(ids))
  {
    var known := KnownIds(ids);
    forall j | 0 <= j < |AllGenres|
      ensures Row(ids)[j] == Row(known)[j]
    {
      RowCell(ids, j);
      RowCell(known, j);
      assert Hot(ids, AllGenres[j]) <==> Hot(known, AllGenres[j]);
    }
  }

  /** A record whose list is missing, empty or only unknown ids gets an all-zero row. */
  lemma NoKnownIdsZeroRow(genreIds: Option<seq<int>>)
    requires forall gid :: gid in IdsOf(genreIds) ==> gid !in TmdbGenres
    ensures forall j :: 0 <= j < |AllGenres| ==> Row(IdsOf(genreIds))[j] == 0
  {
    forall j | 0 <= j < |AllGenres|
      ensures Row(IdsOf(genreIds))[j] == 0
    {
      RowCell(IdsOf(genreIds), j);
    }
  }

  /** The row depends only on which ids occur: reordering or repeating ids changes nothing. */
  lemma RowDependsOnIdSet(ids: seq<int>, ids': seq<int>)
    requires Elems(ids) == Elems(ids')
    ensures Row(ids) == Row(ids')
  {
    forall j | 0 <= j < |AllGenres|
      ensures Row(ids)[j] == Row(ids')[j]
    {
      RowCell(ids, j);
      RowCell(ids', j);
      var g := AllGenres[j];
      if Hot(ids, g) {
        var gid :| gid in ids && gid in TmdbGenres && TmdbGenres[gid] == g;
        assert gid in Elems(ids');
      }
      if Hot(ids', g) {
        var gid :| gid in ids' && gid in TmdbGenres && TmdbGenres[gid] == g;
        assert gid in Elems(ids);
      }
    }
  }

  /**
   * The inner loop of `build_multi_label_matrix`: for each id of one record, look
   * its name up and set that column of row `i` to 1; unknown ids are skipped.
   */
  method FillRow(Y: array2<int>, i: int, ids: seq<int>, nameToIdx: map<string, int>)
    requires nameToIdx == NameToIdx(AllGenres)
    requires 0 <= i < Y.Length0 && Y.Length1 == |AllGenres|
    requires forall j :: 0 <= j < Y.Length1 ==> Y[i, j] == 0
    modifies Y
    ensures forall j :: 0 <= j < Y.Length1 ==> Y[i, j] == Row(ids)[j]
    ensures forall r, j :: 0 <= r < Y.Length0 && r != i && 0 <= j < Y.Length1 ==> Y[r, j] == old(Y[r, j])
  {
    for k := 0 to |ids|
      invariant forall j :: 0 <= j < Y.Length1 ==> Y[i, j] == Row(ids[..k])[j]
      invariant forall r, j :: 0 <= r < Y.Length0 && r != i && 0 <= j < Y.Length1 ==> Y[r, j] == old(Y[r, j])
    {
      RowStep(ids, k);
      var name := Lookup(ids[k]);
      if name.None? {
        continue;
      }
      var j := nameToIdx[name.value];
      Y[i, j] := 1;
    }
    assert ids[..|ids|] == ids;
  }

  /** Every cell of an encoded matrix is 0 or 1, and 1 exactly when its genre is named. */
  lemma EncodedCells(Y: array2<int>, df: Frame)
    requires Y.Length0 == |df.rows| && Y.Length1 == |AllGenres|
    requires forall i, j :: 0 <= i < Y.Length0 && 0 <= j < Y.Length1 ==>
      Y[i, j] == Row(IdsOf(df.rows[i].genreIds))[j]
    ensures forall i, j :: 0 <= i < Y.Length0 && 0 <= j < Y.Length1 ==>
      (Y[i, j] == 0 || Y[i, j] == 1) && (Y[i, j] == 1 <==> Hot(IdsOf(df.rows[i].genreIds), AllGenres[j]))
  {
    forall i, j | 0 <= i < Y.Length0 && 0 <= j < Y.Length1
      ensures (Y[i, j] == 0 || Y[i, j] == 1) && (Y[i, j] == 1 <==> Hot(IdsOf(df.rows[i].genreIds), AllGenres[j]))
    {
      RowCell(IdsOf(df.rows[i].genreIds), j);
    }
  }

  /**
   * `build_multi_label_matrix(df)`: a zero matrix of one row per record and one
   * column per vocabulary name, filled in place with 1s row by row, where the
   * row written is the record's label in `df.index`.
   */
  method BuildMultiLabelMatrix(df: Frame) returns (Y: array2<int>, genreNames: seq<string>)
    requires DefaultIndex(df)
    ensures fresh(Y)
    ensures Y.Length0 == |df.rows| && Y.Length1 == |AllGenres| && genreNames == AllGenres
    ensures forall i, j :: 0 <= i < Y.Length0 && 0 <= j < Y.Length1 ==>
      Y[i, j] == Row(IdsOf(df.rows[i].genreIds))[j]
    ensures forall i, j :: 0 <= i < Y.Length0 && 0 <= j < Y.Length1 ==>
      (Y[i, j] == 0 || Y[i, j] == 1) && (Y[i, j] == 1 <==> Hot(IdsOf(df.rows[i].genreIds), AllGenres[j]))
  {
    genreNames := AllGenres;
    var nameToIdx := NameToIdx(genreNames);
    Y := new int[|df.rows|, |genreNames|]((_, _) => 0);

    for p := 0 to |df.rows|
      invariant forall r, j :: 0 <= r < p && 0 <= j < Y.Length1 ==> Y[r, j] == Row(IdsOf(df.rows[r].genreIds))[j]
      invariant forall r, j :: p <= r < Y.Length0 && 0 <= j < Y.Length1 ==> Y[r, j] == 0
    {
      var i, row := df.index[p], df.rows[p];
      FillRow(Y, i, IdsOf(row.genreIds), nameToIdx);
    }
    EncodedCells(Y, df);
  }

  /**
   * The part of `make_train_test` before the split: the overview texts `X` and the
   * label matrix `Y` of the same frame, so that text k is paired with row k.
   */
  method PairTextsWithLabels(df: Frame) returns (X: seq<string>, Y: array2<int>, genreNames: seq<string>)
    requires DefaultIndex(df)
    ensures fresh(Y)
    ensures |X| == Y.Length0 == |df.rows| && Y.Length1 == |AllGenres| && genreNames == AllGenres
    ensures forall k :: 0 <= k < |X| ==> X[k] == df.rows[k].overview
    ensures forall k, j :: 0 <= k < |X| && 0 <= j < Y.Length1 ==>
      Y[k, j] == Row(IdsOf(df.rows[k].genreIds))[j]
  {
    X := seq(|df.rows|, k requires 0 <= k < |df.rows| => df.rows[k].overview);
    Y, genreNames := BuildMultiLabelMatrix(df);
  }
}
