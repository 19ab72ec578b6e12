/** app/importer/creatures.py, lines 18 and 57-61: the bio side table,
    `BIO_NEW_LINE_REGEX.sub(r'\1 ', bio)` and the name-to-bio dictionary
    filled from the bios CSV. */
module BioTable {
  import opened Results
  import opened CreatureData

  /** `re.sub(r'([^\n])\n', r'\1 ', s)`: scanning left to right, every
      non-newline character followed by a newline keeps the character and
      turns the newline into a space; the scan resumes after the pair, so
      matches never overlap. */
  function NormalizeBio(s: string): string
    decreases |s|
  {
    if |s| < 2 then s
    else if s[0] != '\n' && s[1] == '\n' then [s[0], ' '] + NormalizeBio(s[2..])
    else [s[0]] + NormalizeBio(s[1..])
  }

  /** The newline at `i` ends a line that is not blank: it is the one
      character the regex rewrites. */
  predicate JoinsLines(s: string, i: int)
    requires 0 <= i < |s|
  {
    s[i] == '\n' && i > 0 && s[i - 1] != '\n'
  }

  /** The rewrite keeps the length and changes exactly the newlines that
      follow a non-newline, each into one space. */
  lemma {:induction false} NormalizeBioPointwise(s: string)
    ensures |NormalizeBio(s)| == |s|
    ensures forall i :: 0 <= i < |s| ==>
              NormalizeBio(s)[i] == (if JoinsLines(s, i) then ' ' else s[i])
    decreases |s|
  {
    var r := NormalizeBio(s);
    if |s| >= 2 {
      if s[0] != '\n' && s[1] == '\n' {
        var t := s[2..];
        NormalizeBioPointwise(t);
        forall i | 0 <= i < |s| ensures r[i] == (if JoinsLines(s, i) then ' ' else s[i]) {
          if i >= 2 {
            assert s[i] == t[i - 2] && r[i] == NormalizeBio(t)[i - 2];
            if i > 2 {
              assert s[i - 1] == t[i - 3];
            }
          }
        }
      } else {
        var t := s[1..];
        NormalizeBioPointwise(t);
        forall i | 0 <= i < |s| ensures r[i] == (if JoinsLines(s, i) then ' ' else s[i]) {
          if i >= 1 {
            assert s[i] == t[i - 1] && r[i] == NormalizeBio(t)[i - 1];
            if i > 1 {
              assert s[i - 1] == t[i - 2];
            }
          }
        }
      }
    }
  }

  /** The only characters that differ are rewritten newlines, now spaces. */
  lemma NormalizeBioChangesOnlyNewlines(s: string)
    ensures |NormalizeBio(s)| == |s|
    ensures forall i :: 0 <= i < |s| && NormalizeBio(s)[i] != s[i] ==>
              s[i] == '\n' && NormalizeBio(s)[i] == ' '
    ensures forall i :: 0 <= i < |s| && NormalizeBio(s)[i] == '\n' ==>
              i == 0 || s[i - 1] == '\n'
  {
    NormalizeBioPointwise(s);
  }

  /** A bio is left as it is exactly when no newline follows a non-newline. */
  lemma NormalizeBioFixedPoint(s: string)
    ensures NormalizeBio(s) == s <==> forall i :: 0 <= i < |s| ==> !JoinsLines(s, i)
  {
    NormalizeBioPointwise(s);
    if forall i :: 0 <= i < |s| ==> !JoinsLines(s, i) {
      assert NormalizeBio(s) == s;
    }
  }

  /** The rewrite is not idempotent: a blank line after text loses its
      newline only on a second pass. */
  lemma NormalizeBioNotIdempotent()
    ensures NormalizeBio("a\n\n") == "a \n"
    ensures NormalizeBio(NormalizeBio("a\n\n")) == "a  "
  {
    assert "a\n\n"[2..] == "\n";
    assert "a \n"[1..] == " \n";
    assert " \n"[2..] == "";
  }

  /** A newline at the very end of a bio is rewritten too, when text precedes it. */
  lemma NormalizeBioTrailingNewline()
    ensures NormalizeBio("one\ntwo\n") == "one two "
  {
    var s := "one\ntwo\n";
    NormalizeBioPointwise(s);
    assert JoinsLines(s, 3) && JoinsLines(s, 7);
    assert NormalizeBio(s) == "one two ";
  }

  /** The dictionary filled at lines 59-61: later rows overwrite earlier
      ones with the same name. The assignment evaluates its right-hand side
      first, so a row without `bio` fails before its `name` is read. */
  function BioTableOf(rows: seq<Row>): Result<map<string, string>, ImportError>
    decreases |rows|
  {
    if rows == [] then Success(map[])
    else
      match BioTableOf(rows[..|rows| - 1])
      case Failure(e) => Failure(e)
      case Success(table) =>
        var row := rows[|rows| - 1];
        if Bio !in row then Failure(MissingColumn(Bio))
        else if Name !in row then Failure(MissingColumn(Name))
        else Success(table[row[Name] := NormalizeBio(row[Bio])])
  }

  predicate HasBioColumns(row: Row)
  {
    Name in row && Bio in row
  }

  /** No row after row `i` carries the same name. */
  predicate LastWithName(rows: seq<Row>, i: int)
    requires 0 <= i < |rows| && forall j :: 0 <= j < |rows| ==> Name in rows[j]
  {
    forall j :: i < j < |rows| ==> rows[j][Name] != rows[i][Name]
  }

  /** The table is built exactly when every row has both columns. */
  lemma {:induction false} BioTableSuccess(rows: seq<Row>)
    ensures BioTableOf(rows).Success? <==> forall i :: 0 <= i < |rows| ==> HasBioColumns(rows[i])
    decreases |rows|
  {
    if rows != [] {
      var init := rows[..|rows| - 1];
      BioTableSuccess(init);
      assert forall i :: 0 <= i < |init| ==> init[i] == rows[i];
    }
  }

  /** The table's keys are exactly the names of the rows, taken as they
      are (never slugified). */
  lemma {:induction false} BioTableKeys(rows: seq<Row>)
    requires forall i :: 0 <= i < |rows| ==> Name in rows[i] && Bio in rows[i]
    ensures BioTableOf(rows).Success?
    ensures forall k :: k in BioTableOf(rows).value <==> exists i :: 0 <= i < |rows| && rows[i][Name] == k
    decreases |rows|
  {
    BioTableSuccess(rows);
    if rows != [] {
      var n := |rows| - 1;
      var init := rows[..n];
      assert forall i :: 0 <= i < |init| ==> init[i] == rows[i];
      BioTableKeys(init);
      var prev := BioTableOf(init).value;
      var table := BioTableOf(rows).value;
      assert table.Keys == prev.Keys + {rows[n][Name]};
      forall k | k in table ensures exists i :: 0 <= i < |rows| && rows[i][Name] == k {
        if k != rows[n][Name] {
          var i :| 0 <= i < |init| && init[i][Name] == k;
          assert rows[i][Name] == k;
        }
      }
      forall i | 0 <= i < |rows| ensures rows[i][Name] in table {
        if i < n {
          assert init[i][Name] in prev;
        }
      }
    }
  }

  /** Each name holds the normalised bio of the last row with that name. */
  lemma {:induction false} BioTableLastWins(rows: seq<Row>)
    requires forall i :: 0 <= i < |rows| ==> Name in rows[i] && Bio in rows[i]
    ensures BioTableOf(rows).Success?
    ensures forall i :: 0 <= i < |rows| && LastWithName(rows, i) ==>
              rows[i][Name] in BioTableOf(rows).value &&
              BioTableOf(rows).value[rows[i][Name]] == NormalizeBio(rows[i][Bio])
    decreases |rows|
  {
    BioTableSuccess(rows);
    if rows != [] {
      var n := |rows| - 1;
      var init := rows[..n];
      assert forall i :: 0 <= i < |init| ==> init[i] == rows[i];
      BioTableLastWins(init);
      var table := BioTableOf(rows).value;
      forall i | 0 <= i < |rows| && LastWithName(rows, i)
        ensures rows[i][Name] in table && table[rows[i][Name]] == NormalizeBio(rows[i][Bio])
      {
        if i < n {
          assert rows[n][Name] != rows[i][Name];
          assert LastWithName(init, i);
        }
      }
    }
  }

  /** A failure names the first missing column of the first bad row. */
  lemma {:induction false} BioTableFirstFailure(rows: seq<Row>)
    requires BioTableOf(rows).Failure?
    ensures exists i :: 0 <= i < |rows| && !HasBioColumns(rows[i]) &&
              BioTableOf(rows).error == MissingColumn(if Bio !in rows[i] then Bio else Name) &&
              forall j :: 0 <= j < i ==> HasBioColumns(rows[j])
    decreases |rows|
  {
    var init := rows[..|rows| - 1];
    assert forall i :: 0 <= i < |init| ==> init[i] == rows[i];
    if BioTableOf(init).Failure? {
      BioTableFirstFailure(init);
    } else {
      BioTableSuccess(init);
      assert !HasBioColumns(rows[|rows| - 1]);
    }
  }

  lemma {:induction false} BioTablePrefixFailure(rows: seq<Row>, n: nat)
    requires n <= |rows| && BioTableOf(rows[..n]).Failure?
    ensures BioTableOf(rows) == BioTableOf(rows[..n])
    decreases |rows| - n
  {
    if n < |rows| {
      var init := rows[..|rows| - 1];
      assert init[..n] == rows[..n];
      BioTablePrefixFailure(init, n);
    } else {
      assert rows[..n] == rows;
    }
  }

  /** Lines 57-61: fill `creature_to_bio` row by row. */
  method BuildBioTable(rows: seq<Row>) returns (r: Result<map<string, string>, ImportError>)
    ensures r == BioTableOf(rows)
  {
    var creatureToBio: map<string, string> := map[];
    var i := 0;
    while i < |rows|
      invariant 0 <= i <= |rows|
      invariant BioTableOf(rows[..i]) == Success(creatureToBio)
    {
      var row := rows[i];
      assert rows[..i + 1][..i] == rows[..i];
      if Bio !in row {
        BioTablePrefixFailure(rows, i + 1);
        return Failure(MissingColumn(Bio));
      }
      var bio := NormalizeBio(row[Bio]);
      if Name !in row {
        BioTablePrefixFailure(rows, i + 1);
        return Failure(MissingColumn(Name));
      }
      creatureToBio := creatureToBio[row[Name] := bio];
      i := i + 1;
    }
    assert rows[..i] == rows;
    return Success(creatureToBio);
  }
}
