/**
 * The genre catalog of ml-pipeline/data_utils.py: the fixed table from the
 * movie provider's genre ids to genre names, and the sorted vocabulary of
 * those names whose positions are the columns of the label matrix.
 */
module GenreCatalog {
  import opened Wrappers
  import opened StringOrder

  /** `TMDB_GENRES`: provider genre id to genre name. */
  const TmdbGenres: map<int, string> := map[
    28 := "Action",
    12 := "Adventure",
    16 := "Animation",
    35 := "Comedy",
    80 := "Crime",
    99 := "Documentary",
    18 := "Drama",
    10751 := "Family",
    14 := "Fantasy",
    36 := "History",
    27 := "Horror",
    10402 := "Music",
    9648 := "Mystery",
    10749 := "Romance",
    878 := "Science Fiction",
    10770 := "TV Movie",
    53 := "Thriller",
    10752 := "War",
    37 := "Western"
  ]

  /**
   * `ALL_GENRES = sorted(set(TMDB_GENRES.values()))`, the columns of the label
   * matrix, written out; `AllGenresIsSortedTableNames` proves it is that value.
   * In Python's code-point order "TV Movie" sorts before "Thriller" ('V' < 'h').
   */
  const AllGenres: seq<string> := [
    "Action", "Adventure", "Animation", "Comedy", "Crime", "Documentary",
    "Drama", "Family", "Fantasy", "History", "Horror", "Music", "Mystery",
    "Romance", "Science Fiction", "TV Movie", "Thriller", "War", "Western"]

  lemma VocabularyInTable()
    ensures forall j :: 0 <= j < |AllGenres| ==> AllGenres[j] in TmdbGenres.Values
  {
    // a table id for each vocabulary name, position by position
    var ids := [28, 12, 16, 35, 80, 99, 18, 10751, 14, 36, 27, 10402, 9648, 10749, 878, 10770, 53, 10752, 37];
    forall j | 0 <= j < |AllGenres|
      ensures AllGenres[j] in TmdbGenres.Values
    {
      assert ids[j] in TmdbGenres && TmdbGenres[ids[j]] == AllGenres[j];
    }
  }

  lemma TableInVocabulary()
    ensures forall gid :: gid in TmdbGenres ==> TmdbGenres[gid] in AllGenres
  {
  }

  /**
   * Neighbouring names of the vocabulary are in order, checked three pairs at a
   * time. The fact is one (`NeighboursInOrderFrom0`); it is split into six lemmas
   * only to keep each proof within the solver's budget.
   */
  lemma NeighboursInOrderFrom15()
    ensures NeighboursInOrder(AllGenres[15..])
  {
    assert NeighboursInOrder(AllGenres[17..]);
    assert NeighboursInOrder(AllGenres[16..]);
    assert NeighboursInOrder(AllGenres[15..]);
  }

  lemma NeighboursInOrderFrom12()
    ensures NeighboursInOrder(AllGenres[12..])
  {
    NeighboursInOrderFrom15();
    assert NeighboursInOrder(AllGenres[14..]);
    assert NeighboursInOrder(AllGenres[13..]);
    assert NeighboursInOrder(AllGenres[12..]);
  }

  lemma NeighboursInOrderFrom9()
    ensures NeighboursInOrder(AllGenres[9..])
  {
    NeighboursInOrderFrom12();
    assert NeighboursInOrder(AllGenres[11..]);
    assert NeighboursInOrder(AllGenres[10..]);
    assert NeighboursInOrder(AllGenres[9..]);
  }

  lemma NeighboursInOrderFrom6()
    ensures NeighboursInOrder(AllGenres[6..])
  {
    NeighboursInOrderFrom9();
    assert NeighboursInOrder(AllGenres[8..]);
    assert NeighboursInOrder(AllGenres[7..]);
    assert NeighboursInOrder(AllGenres[6..]);
  }

  lemma NeighboursInOrderFrom3()
    ensures NeighboursInOrder(AllGenres[3..])
  {
    NeighboursInOrderFrom6();
    assert NeighboursInOrder(AllGenres[5..]);
    assert NeighboursInOrder(AllGenres[4..]);
    assert NeighboursInOrder(AllGenres[3..]);
  }

  lemma NeighboursInOrderFrom0()
    ensures NeighboursInOrder(AllGenres)
  {
    NeighboursInOrderFrom3();
    assert NeighboursInOrder(AllGenres[2..]);
    assert NeighboursInOrder(AllGenres[1..]);
    assert NeighboursInOrder(AllGenres[0..]);
    assert AllGenres[0..] == AllGenres;
  }

  /** The vocabulary is sorted without duplicates. */
  lemma AllGenresAscending()
    ensures StrictlyAscending(AllGenres)
  {
    NeighboursInOrderFrom0();
    AdjacentAscending(AllGenres);
  }

  /** The vocabulary holds exactly the names of the table. */
  lemma VocabularyIsTableNames()
    ensures Elems(AllGenres) == TmdbGenres.Values
  {
    VocabularyInTable();
    forall x | x in TmdbGenres.Values
      ensures x in Elems(AllGenres)
    {
      var gid :| gid in TmdbGenres && TmdbGenres[gid] == x;
      TableInVocabulary();
    }
  }

  /** The vocabulary is exactly `sorted(set(TMDB_GENRES.values()))`: 19 distinct names. */
  lemma AllGenresIsSortedTableNames()
    ensures AllGenres == SortedOfSet(TmdbGenres.Values)
    ensures |TmdbGenres.Values| == 19
  {
    AllGenresAscending();
    VocabularyIsTableNames();
    AscendingUnique(AllGenres, SortedOfSet(TmdbGenres.Values));
  }

  /** `TMDB_GENRES.get(gid)`: the genre name of `gid`, or `None` for an unknown id. */
  function Lookup(gid: int): (r: Option<string>)
    ensures r.Some? <==> gid in TmdbGenres
    ensures r.Some? ==> r.value in AllGenres
  {
    if gid in TmdbGenres then
      TableInVocabulary();
      Some(TmdbGenres[gid])
    else None
  }

  /** The ids the test suite expects the table to know. */
  lemma CommonIdsKnown()
    ensures forall gid :: gid in [28, 12, 16, 35, 80, 18] ==> Lookup(gid).Some?
  {
  }
}
