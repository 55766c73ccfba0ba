/** The record store: the comma-separated table file behind every command.
    The file is a header line followed by one record per line; a record line
    starts with its integer id (`id,name,quantity,price`). Every operation is
    a pure function from the old file contents to an `Outcome`: a `Done`
    carries the contents that replace the file (copy-modify-rename, or the
    append), a `Refused` leaves the file untouched. */
module RecordStore {
  import opened Wrappers
  import opened Scan

  /** One line of the file, without its terminating newline. */
  type Line = string

  /** A file with no line at all, or a header followed by the record lines. */
  datatype Store = Empty | Table(header: Line, rows: seq<Line>)

  /** What an operation does to the file, and the text it answers with. */
  datatype Outcome = Done(store: Store, reply: string) | Refused(reply: string)

  /** All lines of the file, in order. */
  function Lines(st: Store): seq<Line> {
    match st
    case Empty => []
    case Table(h, rows) => [h] + rows
  }

  /** The id a line starts with: every scan reads it with `sscanf(line, "%ld,")`. */
  function LeadingId(line: Line): Option<int> {
    ParseValue(line)
  }

  predicate Matches(line: Line, id: int) {
    LeadingId(line) == Some(id)
  }

  function NotFound(id: int): string {
    "ERROR|ID " + IntToString(id) + " no encontrado."
  }

  // ---------------------------------------------------------------------
  // Lookup (buscar_registro_por_id)

  /** The first record line carrying `id`. */
  function Find(rows: seq<Line>, id: int): (r: Option<Line>)
    ensures r.None? <==> forall j :: 0 <= j < |rows| ==> !Matches(rows[j], id)
    ensures r.Some? ==> Matches(r.value, id) && r.value in rows
  {
    hide ParseValue;
    if |rows| == 0 then None
    else if Matches(rows[0], id) then Some(rows[0])
    else Find(rows[1..], id)
  }

  /** `Find` returns the earliest match: no line before it carries the id. */
  lemma {:induction false} FindIsFirst(rows: seq<Line>, id: int, i: nat)
    requires i < |rows| && Matches(rows[i], id)
    requires forall j :: 0 <= j < i ==> !Matches(rows[j], id)
    ensures Find(rows, id) == Some(rows[i])
  {
    hide ParseValue;
    if i > 0 {
      assert !Matches(rows[0], id);
      FindIsFirst(rows[1..], id, i - 1);
    }
  }

  /** The header is skipped: only record lines are searched. */
  function Lookup(st: Store, id: int): (r: Option<Line>)
    ensures r.Some? ==> st.Table? && r.value in st.rows && Matches(r.value, id)
    ensures r.None? <==> st.Empty? || forall j :: 0 <= j < |st.rows| ==> !Matches(st.rows[j], id)
  {
    match st
    case Empty => None
    case Table(_, rows) => Find(rows, id)
  }

  /** The answer to `GET id`: the record line up to its line end, or the
      not-found error. */
  function GetReply(st: Store, id: int): (r: string)
    ensures Lookup(st, id).Some? ==> r <= Lookup(st, id).value
    ensures Lookup(st, id).Some? ==> forall i :: 0 <= i < |r| ==> r[i] != '\r' && r[i] != '\n'
    ensures Lookup(st, id).Some? && |r| < |Lookup(st, id).value| ==>
              Lookup(st, id).value[|r|] == '\r' || Lookup(st, id).value[|r|] == '\n'
    ensures Lookup(st, id).None? ==> r == NotFound(id)
  {
    match Lookup(st, id)
    case Some(line) => CutLine(line)
    case None => NotFound(id)
  }

  // ---------------------------------------------------------------------
  // Delete (eliminar_registro_por_id)

  /** The record lines that do not carry `id`, in their original order. */
  function RemoveRows(rows: seq<Line>, id: int): (r: seq<Line>)
    ensures |r| <= |rows|
    ensures forall i :: 0 <= i < |r| ==> !Matches(r[i], id)
  {
    hide ParseValue;
    if |rows| == 0 then []
    else (if Matches(rows[0], id) then [] else [rows[0]]) + RemoveRows(rows[1..], id)
  }

  /** The lines kept are exactly the lines that do not carry `id`. */
  lemma {:induction false} RemoveRowsMembers(rows: seq<Line>, id: int)
    ensures forall x :: x in RemoveRows(rows, id) <==> x in rows && !Matches(x, id)
  {
    hide ParseValue;
    if |rows| > 0 {
      RemoveRowsMembers(rows[1..], id);
      assert rows == [rows[0]] + rows[1..];
    }
  }

  /** Removal distributes over concatenation, so it keeps the relative
      order of the lines it keeps. */
  lemma {:induction false} RemoveRowsAppend(a: seq<Line>, b: seq<Line>, id: int)
    ensures RemoveRows(a + b, id) == RemoveRows(a, id) + RemoveRows(b, id)
  {
    hide ParseValue;
    if |a| > 0 {
      assert (a + b)[0] == a[0];
      assert (a + b)[1..] == a[1..] + b;
      RemoveRowsAppend(a[1..], b, id);
    } else {
      assert a + b == b;
    }
  }

  /** Removing the lines of one id does not change what another id finds. */
  lemma {:induction false} FindIgnoresOtherIds(rows: seq<Line>, id: int, other: int)
    requires other != id
    ensures Find(RemoveRows(rows, id), other) == Find(rows, other)
  {
    hide ParseValue;
    if |rows| > 0 {
      FindIgnoresOtherIds(rows[1..], id, other);
      var r := RemoveRows(rows, id);
      if !Matches(rows[0], id) {
        assert r == [rows[0]] + RemoveRows(rows[1..], id);
        assert r[0] == rows[0];
        assert r[1..] == RemoveRows(rows[1..], id);
      } else {
        assert r == RemoveRows(rows[1..], id);
        assert !Matches(rows[0], other);
      }
    }
  }

  function DeleteNotFound(id: int): string {
    "ERROR|ID " + IntToString(id) + " no encontrado para eliminar."
  }

  /** Every line carrying `id` is removed; when there is none the file is
      left alone. The header is copied first, whatever it holds. */
  function Delete(st: Store, id: int): (r: Outcome)
    ensures r.Done? <==> Lookup(st, id).Some?
    ensures r.Done? ==> r.store == Table(st.header, RemoveRows(st.rows, id))
    ensures r.Done? ==> r.reply == "Registro " + IntToString(id) + " eliminado."
    ensures r.Refused? ==> r.reply == DeleteNotFound(id)
  {
    match st
    case Empty => Refused(DeleteNotFound(id))
    case Table(h, rows) =>
      if Find(rows, id).None? then Refused(DeleteNotFound(id))
      else Done(Table(h, RemoveRows(rows, id)), "Registro " + IntToString(id) + " eliminado.")
  }

  /** After a delete, the id is gone and every other id finds what it found
      before. */
  lemma DeleteThenLookup(st: Store, id: int, other: int)
    requires Delete(st, id).Done?
    ensures Lookup(Delete(st, id).store, id).None?
    ensures other != id ==> Lookup(Delete(st, id).store, other) == Lookup(st, other)
  {
    hide ParseValue;
    RemoveRowsMembers(st.rows, id);
    if other != id {
      FindIgnoresOtherIds(st.rows, id, other);
    }
  }

  // ---------------------------------------------------------------------
  // Splitting a record into its four fields

  /** Length of the longest comma-free prefix of `s`. */
  function CommaRun(s: string): (n: nat)
    ensures n <= |s|
    ensures forall i :: 0 <= i < n ==> s[i] != ','
    ensures n < |s| ==> s[n] == ','
  {
    if |s| > 0 && s[0] != ',' then 1 + CommaRun(s[1..]) else 0
  }

  /** Four fields as `%[^,],%[^,],%[^,],%[^\n]` reads them: three non-empty
      comma-free fields and a non-empty last field that may hold commas. */
  predicate WellFormedFields(p: seq<string>) {
    |p| == 4 && |p[3]| > 0 && forall i :: 0 <= i < 3 ==> |p[i]| > 0 && ',' !in p[i]
  }

  /** The line `fprintf(f, "%s,%s,%s,%s\n", ...)` writes, without its newline. */
  function JoinFields(p: seq<string>): Line
    requires |p| == 4
  {
    p[0] + "," + (p[1] + "," + (p[2] + "," + p[3]))
  }

  lemma CommaRunUnique(s: string, n: nat)
    requires n <= |s|
    requires forall i :: 0 <= i < n ==> s[i] != ','
    requires n < |s| ==> s[n] == ','
    ensures CommaRun(s) == n
  {
    hide ParseValue;
  }

  /** Splitting `f,rest` at its first comma gives `f` and `rest` back. */
  lemma CommaRunOf(f: string, rest: string)
    requires ',' !in f
    ensures CommaRun(f + "," + rest) == |f|
    ensures (f + "," + rest)[..|f|] == f && (f + "," + rest)[|f| + 1..] == rest
  {
    hide ParseValue;
    var s := f + "," + rest;
    assert forall i :: 0 <= i < |f| ==> s[i] == f[i];
    assert s[|f|] == ',';
    CommaRunUnique(s, |f|);
    assert s[..|f|] == f;
    assert s[|f| + 1..] == rest;
  }

  /** One `%[^,],` conversion: a non-empty comma-free field and the text
      after the comma that ends it. */
  function Cut(s: string): (r: Option<(string, string)>)
    ensures r.Some? ==> |r.value.0| > 0 && ',' !in r.value.0 && s == r.value.0 + "," + r.value.1
  {
    var k := CommaRun(s);
    if k == 0 || k == |s| then None
    else
      SplitAtComma(s, k);
      Some((s[..k], s[k + 1..]))
  }

  /** A line cut at its first comma is the field, the comma and the rest. */
  lemma SplitAtComma(s: string, k: nat)
    requires k < |s| && s[k] == ','
    requires forall i :: 0 <= i < k ==> s[i] != ','
    ensures s == s[..k] + "," + s[k + 1..]
    ensures ',' !in s[..k]
  {
  }

  /** Cutting `f,rest` gives `f` and `rest` back. */
  lemma CutOf(f: string, rest: string)
    requires |f| > 0 && ',' !in f
    ensures Cut(f + "," + rest) == Some((f, rest))
  {
    CommaRunOf(f, rest);
  }

  /** `sscanf(line, "%[^,],%[^,],%[^,],%[^\n]", ...) == 4`, with the fields. */
  function SplitFields(line: Line): (r: Option<seq<string>>)
    ensures r.Some? ==> WellFormedFields(r.value) && JoinFields(r.value) == line
  {
    match Cut(line)
    case None => None
    case Some((a, r1)) =>
      match Cut(r1)
      case None => None
      case Some((b, r2)) =>
        match Cut(r2)
        case None => None
        case Some((c, r3)) =>
          if |r3| == 0 then None
          else
            JoinOfCuts(line, a, r1, b, r2, c, r3);
            Some([a, b, c, r3])
  }

  /** Three cuts at commas, put back together, give the line and well-formed
      fields. */
  lemma JoinOfCuts(line: string, a: string, r1: string, b: string, r2: string, c: string, r3: string)
    requires line == a + "," + r1 && r1 == b + "," + r2 && r2 == c + "," + r3
    requires |a| > 0 && ',' !in a && |b| > 0 && ',' !in b && |c| > 0 && ',' !in c && |r3| > 0
    ensures JoinFields([a, b, c, r3]) == line
    ensures WellFormedFields([a, b, c, r3])
  {
  }

  /** Joining well-formed fields and splitting the line gives them back. */
  lemma JoinThenSplit(p: seq<string>)
    requires WellFormedFields(p)
    ensures SplitFields(JoinFields(p)) == Some(p)
  {
    hide ParseValue;
    var r2 := p[2] + "," + p[3];
    var r1 := p[1] + "," + r2;
    var line := p[0] + "," + r1;
    assert JoinFields(p) == line;
    CutOf(p[0], r1);
    CutOf(p[1], r2);
    CutOf(p[2], p[3]);
    assert [p[0], p[1], p[2], p[3]] == p;
  }

  /** A joined line starts with the id of its first field. */
  lemma JoinedId(p: seq<string>)
    requires |p| == 4
    ensures LeadingId(JoinFields(p)) == ParseValue(p[0])
  {
    hide ParseValue;
    var rest := "," + (p[1] + "," + (p[2] + "," + p[3]));
    assert JoinFields(p) == p[0] + rest;
    ParseValueStops(p[0], rest);
  }

  // ---------------------------------------------------------------------
  // Update (actualizar_registro_por_id)

  const QuantityDecimal := "ERROR|La cantidad no puede ser un número decimal."
  const QuantityNegative := "ERROR|La cantidad no puede ser negativa."
  const PriceComma := "ERROR|El precio debe usar un punto (.) como separador decimal, no una coma (,)."
  const PriceNegativeMsg := "ERROR|El precio no puede ser negativo."

  /** The validation error for writing `value` into field `field` (2 is the
      quantity, 3 the price; other fields are not checked). */
  function UpdateError(field: int, value: string): (r: Option<string>)
    ensures r.Some? ==> field == 2 || field == 3
    ensures field == 2 ==> (r.None? <==> '.' !in value && ',' !in value && Atoi(value) >= 0)
    ensures field == 3 ==> (r.None? <==> ',' !in value && !PriceNegative(value))
  {
    if field == 2 then
      if '.' in value || ',' in value then Some(QuantityDecimal)
      else if Atoi(value) < 0 then Some(QuantityNegative)
      else None
    else if field == 3 then
      if ',' in value then Some(PriceComma)
      else if PriceNegative(value) then Some(PriceNegativeMsg)
      else None
    else None
  }

  /** The fields with field `field` replaced; an index outside 1..3 replaces
      nothing. */
  function SetField(p: seq<string>, field: int, value: string): (q: seq<string>)
    requires |p| == 4
    ensures |q| == 4 && q[0] == p[0]
    ensures forall i :: 0 <= i < 4 && i != field ==> q[i] == p[i]
    ensures 0 < field < 4 ==> q[field] == value
  {
    if 0 < field < 4 then p[field := value] else p
  }

  /** What one line becomes in the temporary file: copied when it carries
      another id, rebuilt with the new field when it carries `id` and splits,
      and dropped when it carries `id` but does not split. */
  function RewriteRow(row: Line, id: int, field: int, value: string): (r: seq<Line>)
    ensures |r| <= 1
    ensures !Matches(row, id) ==> r == [row]
    ensures Matches(row, id) ==> (|r| == 0 <==> SplitFields(row).None?)
  {
    if !Matches(row, id) then [row]
    else
      match SplitFields(row)
      case None => []
      case Some(p) => [JoinFields(SetField(p, field, value))]
  }

  /** The rewrite applied to every line: the scan has no `break`. */
  function RewriteRows(rows: seq<Line>, id: int, field: int, value: string): (r: seq<Line>)
    ensures |r| <= |rows|
  {
    if |rows| == 0 then []
    else RewriteRow(rows[0], id, field, value) + RewriteRows(rows[1..], id, field, value)
  }

  /** When every line carrying `id` splits, the rewrite keeps every line in
      place: each line for `id` becomes its fields with `field` replaced, and
      each other line is copied. */
  lemma {:induction false} RewriteEveryMatch(rows: seq<Line>, id: int, field: int, value: string)
    requires forall j :: 0 <= j < |rows| && Matches(rows[j], id) ==> SplitFields(rows[j]).Some?
    ensures |RewriteRows(rows, id, field, value)| == |rows|
    ensures forall i :: 0 <= i < |rows| ==>
              RewriteRows(rows, id, field, value)[i]
              == if Matches(rows[i], id) then JoinFields(SetField(SplitFields(rows[i]).value, field, value)) else rows[i]
  {
    hide ParseValue;
    if |rows| > 0 {
      var tail := rows[1..];
      assert forall j :: 0 <= j < |tail| ==> tail[j] == rows[j + 1];
      RewriteEveryMatch(tail, id, field, value);
      var out := RewriteRows(rows, id, field, value);
      var rest := RewriteRows(tail, id, field, value);
      assert out == RewriteRow(rows[0], id, field, value) + rest;
      forall i | 0 <= i < |rows|
        ensures out[i] == if Matches(rows[i], id) then JoinFields(SetField(SplitFields(rows[i]).value, field, value)) else rows[i]
      {
        if i > 0 {
          assert out[i] == rest[i - 1] && tail[i - 1] == rows[i];
        }
      }
    }
  }

  /** Whether some line carrying `id` splits into four fields, which is when
      the new value gets validated. */
  predicate SplittingMatch(rows: seq<Line>, id: int) {
    exists i :: 0 <= i < |rows| && Matches(rows[i], id) && SplitFields(rows[i]).Some?
  }

  /** `UPDATE id field value`: the file is replaced only when the id is
      present and the value passed validation. */
  function Update(st: Store, id: int, field: int, value: string): (r: Outcome)
    ensures r.Done? <==> Lookup(st, id).Some? && !(SplittingMatch(st.rows, id) && UpdateError(field, value).Some?)
    ensures r.Done? ==> r.store == Table(st.header, RewriteRows(st.rows, id, field, value))
    ensures r.Done? ==> r.reply == "Registro " + IntToString(id) + " actualizado."
    ensures r.Refused? && Lookup(st, id).Some? ==> r.reply == UpdateError(field, value).value
    ensures Lookup(st, id).None? ==> r == Refused(NotFound(id))
  {
    match st
    case Empty => Refused(NotFound(id))
    case Table(h, rows) =>
      if Find(rows, id).None? then Refused(NotFound(id))
      else if SplittingMatch(rows, id) && UpdateError(field, value).Some? then
        Refused(UpdateError(field, value).value)
      else Done(Table(h, RewriteRows(rows, id, field, value)), "Registro " + IntToString(id) + " actualizado.")
  }

  /** A rebuilt line still carries the id of the line it replaces. */
  lemma RewriteRowKeepsId(row: Line, id: int, field: int, value: string)
    requires Matches(row, id)
    ensures forall x :: x in RewriteRow(row, id, field, value) ==> Matches(x, id)
  {
    hide ParseValue;
    match SplitFields(row)
    case None =>
    case Some(p) =>
      JoinedId(p);
      JoinedId(SetField(p, field, value));
  }

  /** An update touches only the lines that carry its id: removing those
      lines from the old and the new file gives the same sequence. */
  lemma {:induction false} RewriteKeepsOtherRows(rows: seq<Line>, id: int, field: int, value: string)
    ensures RemoveRows(RewriteRows(rows, id, field, value), id) == RemoveRows(rows, id)
  {
    hide ParseValue;
    if |rows| > 0 {
      var head := RewriteRow(rows[0], id, field, value);
      RemoveRowsAppend(head, RewriteRows(rows[1..], id, field, value), id);
      RewriteKeepsOtherRows(rows[1..], id, field, value);
      if Matches(rows[0], id) {
        RewriteRowKeepsId(rows[0], id, field, value);
        assert RemoveRows(head, id) == [] by {
          if |head| > 0 {
            assert head[0] in head;
            assert head[1..] == [];
          }
        }
      } else {
        assert head == [rows[0]];
        assert RemoveRows(head, id) == [rows[0]] by {
          assert head[1..] == [];
        }
      }
    }
  }

  /** After a successful update every other id finds what it found before,
      and all lines not carrying the id are kept, in order. */
  lemma UpdateKeepsOthers(st: Store, id: int, field: int, value: string, other: int)
    requires Update(st, id, field, value).Done?
    ensures RemoveRows(Update(st, id, field, value).store.rows, id) == RemoveRows(st.rows, id)
    ensures other != id ==> Lookup(Update(st, id, field, value).store, other) == Lookup(st, other)
  {
    hide ParseValue;
    var rows' := RewriteRows(st.rows, id, field, value);
    RewriteKeepsOtherRows(st.rows, id, field, value);
    if other != id {
      FindIgnoresOtherIds(rows', id, other);
      FindIgnoresOtherIds(st.rows, id, other);
    }
  }

  /** When the first line carrying the id splits into fields `p`, a `GET`
      after the update finds that line with only field `field` replaced. */
  lemma {:induction false} RewriteFindsTarget(rows: seq<Line>, id: int, field: int, value: string, p: seq<string>)
    requires Find(rows, id).Some? && SplitFields(Find(rows, id).value) == Some(p)
    ensures Find(RewriteRows(rows, id, field, value), id) == Some(JoinFields(SetField(p, field, value)))
  {
    hide ParseValue;
    var out := RewriteRows(rows, id, field, value);
    var head := RewriteRow(rows[0], id, field, value);
    assert out == head + RewriteRows(rows[1..], id, field, value);
    if Matches(rows[0], id) {
      JoinedId(p);
      JoinedId(SetField(p, field, value));
      assert out[0] == JoinFields(SetField(p, field, value));
    } else {
      assert out[0] == rows[0];
      assert out[1..] == RewriteRows(rows[1..], id, field, value);
      RewriteFindsTarget(rows[1..], id, field, value, p);
    }
  }

  lemma UpdateThenLookup(st: Store, id: int, field: int, value: string, p: seq<string>)
    requires Update(st, id, field, value).Done?
    requires SplitFields(Lookup(st, id).value) == Some(p)
    ensures Lookup(Update(st, id, field, value).store, id) == Some(JoinFields(SetField(p, field, value)))
  {
    hide ParseValue;
    RewriteFindsTarget(st.rows, id, field, value, p);
  }

  /** With a field index outside 1..3 and only well-formed lines for the id,
      the update reports success and leaves the file byte-identical. */
  lemma {:induction false} RewriteOutsideFieldRange(rows: seq<Line>, id: int, field: int, value: string)
    requires !(0 < field < 4)
    requires forall j :: 0 <= j < |rows| && Matches(rows[j], id) ==> SplitFields(rows[j]).Some?
    ensures RewriteRows(rows, id, field, value) == rows
  {
    hide ParseValue;
    if |rows| > 0 {
      RewriteOutsideFieldRange(rows[1..], id, field, value);
      assert rows == [rows[0]] + rows[1..];
    }
  }

  lemma UpdateOutsideFieldRange(st: Store, id: int, field: int, value: string)
    requires Lookup(st, id).Some? && !(0 < field < 4)
    requires forall j :: 0 <= j < |st.rows| && Matches(st.rows[j], id) ==> SplitFields(st.rows[j]).Some?
    ensures Update(st, id, field, value) == Done(st, "Registro " + IntToString(id) + " actualizado.")
  {
    hide ParseValue;
    RewriteOutsideFieldRange(st.rows, id, field, value);
  }

  /** When no line for the id splits, nothing is validated and the update
      succeeds by dropping those lines: it acts as a delete. */
  lemma {:induction false} RewriteMalformedDrops(rows: seq<Line>, id: int, field: int, value: string)
    requires !SplittingMatch(rows, id)
    ensures RewriteRows(rows, id, field, value) == RemoveRows(rows, id)
  {
    hide ParseValue;
    if |rows| > 0 {
      assert !SplittingMatch(rows[1..], id) by {
        forall j | 0 <= j < |rows[1..]| ensures !(Matches(rows[1..][j], id) && SplitFields(rows[1..][j]).Some?) {
          assert rows[1..][j] == rows[j + 1];
        }
      }
      RewriteMalformedDrops(rows[1..], id, field, value);
      assert !(Matches(rows[0], id) && SplitFields(rows[0]).Some?);
    }
  }

  lemma UpdateOfMalformedIsDelete(st: Store, id: int, field: int, value: string)
    requires Lookup(st, id).Some? && !SplittingMatch(st.rows, id)
    ensures Update(st, id, field, value).Done?
    ensures Update(st, id, field, value).store == Delete(st, id).store
  {
    hide ParseValue;
    RewriteMalformedDrops(st.rows, id, field, value);
  }

  // ---------------------------------------------------------------------
  // Highest id (obtener_max_id)

  /** The highest id among the record lines, starting from -1. */
  function MaxRowId(rows: seq<Line>): (m: int)
    ensures m >= -1
    ensures forall i :: 0 <= i < |rows| && LeadingId(rows[i]).Some? ==> LeadingId(rows[i]).value <= m
    ensures m == -1 || exists i :: 0 <= i < |rows| && LeadingId(rows[i]) == Some(m)
  {
    hide ParseValue;
    if |rows| == 0 then -1
    else
      var rest := MaxRowId(rows[1..]);
      assert forall i :: 0 <= i < |rows| - 1 ==> rows[1..][i] == rows[i + 1];
      match LeadingId(rows[0])
      case Some(v) => if v > rest then v else rest
      case None => rest
  }

  /** 0 for a file without even a header, otherwise the highest record id
      (-1 when there is no record with an id of -1 or more). */
  function MaxId(st: Store): (m: int)
    ensures st.Empty? ==> m == 0
    ensures st.Table? ==> m >= -1 && forall i :: 0 <= i < |st.rows| && LeadingId(st.rows[i]).Some? ==> LeadingId(st.rows[i]).value <= m
    ensures st.Table? ==> m == -1 || exists i :: 0 <= i < |st.rows| && LeadingId(st.rows[i]) == Some(m)
  {
    match st
    case Empty => 0
    case Table(_, rows) => MaxRowId(rows)
  }

  // ---------------------------------------------------------------------
  // Append (agregar_registro)

  /** The three fields an `ADD` line carries, as the text the client sent. */
  datatype NewRecord = NewRecord(name: string, quantity: string, price: string)

  /** Length of the longest prefix without blanks. */
  function WordRun(s: string): (n: nat)
    ensures n <= |s|
    ensures forall i :: 0 <= i < n ==> !IsSpace(s[i])
  {
    if |s| > 0 && !IsSpace(s[0]) then 1 + WordRun(s[1..]) else 0
  }

  /** `sscanf(data, "%255[^,],%49[^,],%49s", ...) == 3`: a name of 1 to 255
      characters and a quantity of 1 to 49 characters, each ended by a comma,
      then the first word of the rest, cut to 49 characters. */
  function ParseAdd(data: string): (r: Option<NewRecord>)
    ensures r.Some? ==> 0 < |r.value.name| <= 255 && ',' !in r.value.name
    ensures r.Some? ==> 0 < |r.value.quantity| <= 49 && ',' !in r.value.quantity
    ensures r.Some? ==> 0 < |r.value.price| <= 49
  {
    var k0 := CommaRun(data);
    if k0 == 0 || k0 > 255 || k0 == |data| then None
    else
      var r1 := data[k0 + 1..];
      var k1 := CommaRun(r1);
      if k1 == 0 || k1 > 49 || k1 == |r1| then None
      else
        var t := SkipSpaces(r1[k1 + 1..]);
        var k2 := WordRun(t);
        if k2 == 0 then None
        else Some(NewRecord(data[..k0], r1[..k1], t[..if k2 < 49 then k2 else 49]))
  }

  /** The longest blank-free prefix of a blank-free string is all of it. */
  lemma {:induction false} WordRunOfWord(w: string)
    requires forall i :: 0 <= i < |w| ==> !IsSpace(w[i])
    ensures WordRun(w) == |w|
  {
    if |w| > 0 {
      assert forall i :: 0 <= i < |w[1..]| ==> w[1..][i] == w[i + 1];
      WordRunOfWord(w[1..]);
    }
  }

  /** Fields of the sizes `sscanf` accepts, sent as `name,quantity,price`,
      are read back as those fields. */
  lemma ParseAddOf(name: string, quantity: string, price: string)
    requires 0 < |name| <= 255 && ',' !in name
    requires 0 < |quantity| <= 49 && ',' !in quantity
    requires 0 < |price| <= 49 && forall i :: 0 <= i < |price| ==> !IsSpace(price[i])
    ensures ParseAdd(name + "," + (quantity + "," + price)) == Some(NewRecord(name, quantity, price))
  {
    hide ParseValue;
    var r1 := quantity + "," + price;
    CommaRunOf(name, r1);
    CommaRunOf(quantity, price);
    SpaceRunUnique(price, 0);
    assert SkipSpaces(price) == price;
    WordRunOfWord(price);
    assert price[..|price|] == price;
  }

  const FormatError := "ERROR|Formato incorrecto. Uso: ADD <NOMBRE_PRODUCTO>,<CANTIDAD>,<PRECIO>"
  const NegativeError := "ERROR|La cantidad y el precio no pueden ser negativos."

  /** The validation error for a new record, checked in the order the
      server checks it. */
  function AddError(rec: NewRecord): (r: Option<string>)
    ensures r.None? <==> '.' !in rec.quantity && ',' !in rec.quantity && ',' !in rec.price
                         && Atoi(rec.quantity) >= 0 && !PriceNegative(rec.price)
  {
    if '.' in rec.quantity || ',' in rec.quantity then Some(QuantityDecimal)
    else if ',' in rec.price then Some(PriceComma)
    else if Atoi(rec.quantity) < 0 || PriceNegative(rec.price) then Some(NegativeError)
    else None
  }

  /** The line `fprintf(f, "%ld,%s,%d,%.2f\n", ...)` writes; `fmtPrice` is the
      `%.2f` rendering of `atof(price)`. */
  function RecordLine(id: int, rec: NewRecord, fmtPrice: string -> string): (r: Line)
    ensures LeadingId(r) == Some(id)
  {
    ParseValueOfIntToString(id, RecordTail(rec, fmtPrice));
    IntToString(id) + RecordTail(rec, fmtPrice)
  }

  /** Everything a new record line holds after its id. */
  function RecordTail(rec: NewRecord, fmtPrice: string -> string): string {
    "," + rec.name + "," + IntToString(Atoi(rec.quantity)) + "," + fmtPrice(rec.price)
  }

  /** Printed numbers hold no comma. */
  lemma IntToStringCommaFree(n: int)
    ensures |IntToString(n)| > 0 && ',' !in IntToString(n)
  {
    var d := NatToString(if n < 0 then -n else n);
    assert forall i :: 0 <= i < |d| ==> IsDigit(d[i]);
    assert ',' !in d;
  }

  /** A line `ADD` writes splits, as `UPDATE` reads it, into the id, the name,
      the quantity as `%d` printed it and the rendered price. */
  lemma RecordLineSplits(id: int, rec: NewRecord, fmtPrice: string -> string)
    requires 0 < |rec.name| && ',' !in rec.name && |fmtPrice(rec.price)| > 0
    ensures SplitFields(RecordLine(id, rec, fmtPrice))
            == Some([IntToString(id), rec.name, IntToString(Atoi(rec.quantity)), fmtPrice(rec.price)])
  {
    hide ParseValue, ParseLong, Atoi, SplitFields;
    var p := [IntToString(id), rec.name, IntToString(Atoi(rec.quantity)), fmtPrice(rec.price)];
    IntToStringCommaFree(id);
    IntToStringCommaFree(Atoi(rec.quantity));
    assert WellFormedFields(p);
    assert JoinFields(p) == RecordLine(id, rec, fmtPrice);
    JoinThenSplit(p);
  }

  /** The file after appending a line; the first line of a file is its header. */
  function Append(st: Store, line: Line): (r: Store)
    ensures Lines(r) == Lines(st) + [line]
  {
    match st
    case Empty => Table(line, [])
    case Table(h, rows) => Table(h, rows + [line])
  }

  /** `ADD name,quantity,price`: parse, validate, then append one line with
      the next id. */
  function Add(st: Store, data: string, fmtPrice: string -> string): (r: Outcome)
    ensures r.Done? <==> ParseAdd(data).Some? && AddError(ParseAdd(data).value).None?
    ensures ParseAdd(data).None? ==> r == Refused(FormatError)
    ensures r.Refused? && ParseAdd(data).Some? ==> r.reply == AddError(ParseAdd(data).value).value
    ensures r.Done? ==> Lines(st) < Lines(r.store) && |Lines(r.store)| == |Lines(st)| + 1
    ensures r.Done? ==> r.reply == "Registro agregado con ID " + IntToString(MaxId(st) + 1) + "."
    ensures r.Done? ==> Lines(r.store)[|Lines(st)|] == RecordLine(MaxId(st) + 1, ParseAdd(data).value, fmtPrice)
  {
    match ParseAdd(data)
    case None => Refused(FormatError)
    case Some(rec) =>
      match AddError(rec)
      case Some(e) => Refused(e)
      case None =>
        var id := MaxId(st) + 1;
        Done(Append(st, RecordLine(id, rec, fmtPrice)), "Registro agregado con ID " + IntToString(id) + ".")
  }

  /** The appended line carries the new id, and that id is greater than the
      id of every record already in the file. */
  lemma AddAssignsFreshId(st: Store, data: string, fmtPrice: string -> string)
    requires Add(st, data, fmtPrice).Done?
    ensures LeadingId(Lines(Add(st, data, fmtPrice).store)[|Lines(st)|]) == Some(MaxId(st) + 1)
    ensures st.Table? ==> forall i :: 0 <= i < |st.rows| && LeadingId(st.rows[i]).Some? ==> LeadingId(st.rows[i]).value < MaxId(st) + 1
  {
    hide ParseValue, ParseLong, Atoi, PriceNegative;
  }

  /** `ADD` then `GET` of the new id: the appended line is what is found. */
  lemma AddThenLookup(st: Store, data: string, fmtPrice: string -> string)
    requires st.Table? && Add(st, data, fmtPrice).Done?
    ensures Lookup(Add(st, data, fmtPrice).store, MaxId(st) + 1) == Some(RecordLine(MaxId(st) + 1, ParseAdd(data).value, fmtPrice))
  {
    hide ParseValue;
    AddAssignsFreshId(st, data, fmtPrice);
    var rows' := Add(st, data, fmtPrice).store.rows;
    assert rows' == st.rows + [RecordLine(MaxId(st) + 1, ParseAdd(data).value, fmtPrice)];
    FindIsFirst(rows', MaxId(st) + 1, |st.rows|);
  }

  /** On a file with no line at all the new record becomes the first line,
      which every scan skips as the header: no `GET` can find it. */
  lemma AddToEmptyFileIsHidden(data: string, fmtPrice: string -> string, id: int)
    requires Add(Empty, data, fmtPrice).Done?
    ensures MaxId(Empty) + 1 == 1
    ensures Lookup(Add(Empty, data, fmtPrice).store, id).None?
  {
    hide ParseValue;
  }
}
