/**
 * The output plan of `create_slideshow` and `main`: for every data row, which
 * background is used, which images are written with which text, and under
 * which file names.
 *
 * The world outside the script is an `Environment`: whether the output and the
 * image directories exist, the image directory's listing at the start, the
 * draw `random.choice` makes for each row, and the formatted `datetime.now()`
 * reading taken for each (row, column). Each `add_text_to_image(image, text,
 * output)` call is recorded as a `Job`; what it draws is `Layout.Rendered`.
 *
 * The variable `timestamp` is kept as the script has it: it is set only for
 * fields with content and is read again for the row's final image, so that
 * image reuses the last reading of the row, or of an earlier row when this row
 * has no field with content. When the first row that gets an image has no
 * field with content, `timestamp` was never bound: Python raises
 * `UnboundLocalError` at the final image's path and the run stops, which the
 * plan records as `crashed`.
 */
module Slideshow {
  import opened Wrappers
  import opened Text
  import opened Paths
  import opened CsvData
  import opened Images

  const OutputDirectory: string := "slideshow/output/"

  /** The text of the closing image of every row. */
  const FixedText: string := "Folge f\U{FC}r mehr Content \n --> \n easyy_mindset :)"

  datatype Environment = Environment(
    outputExists: bool,
    imagesPresent: bool,
    listing: seq<string>,
    roll: nat -> nat,
    clock: (nat, nat) -> string)

  /** One `add_text_to_image(image_path, text, output_path)` call. */
  datatype Job = Job(background: string, text: string, output: string)

  /** What the loop over the rows has produced so far and the state it carries to the next row. */
  datatype Batch = Batch(jobs: seq<Job>, listing: seq<string>, timestamp: Option<string>, crashed: bool)

  /** A field has content when some character is not whitespace, which is when `text.strip()` is not empty. */
  predicate HasContent(text: string) {
    !IsBlank(text)
  }

  /** The file for column `col` of row `idx` (both counted from 0; the name counts from 1). */
  function ColumnPath(timestamp: string, name: string, idx: nat, col: nat): string {
    OutputDirectory + "/slideshow_" + timestamp + "_" + name + "_" + Decimal(idx + 1) + "_" + Decimal(col + 1) + ".png"
  }

  /** The file for the closing image of row `idx`. */
  function FinalPath(timestamp: string, name: string, idx: nat): string {
    OutputDirectory + "/slideshow_" + timestamp + "_" + name + "_" + Decimal(idx + 1) + "_final.png"
  }

  /** The fields with content, in column order. */
  function ContentFields(fields: seq<string>): (texts: seq<string>)
    ensures |texts| <= |fields|
  {
    if fields == [] then []
    else
      var n := |fields|;
      ContentFields(fields[..n - 1]) + (if HasContent(fields[n - 1]) then [fields[n - 1]] else [])
  }

  /** The fields kept are exactly the fields with content. */
  lemma {:induction false} ContentFieldsMembers(fields: seq<string>)
    ensures forall t :: t in ContentFields(fields) <==> t in fields && HasContent(t)
    decreases |fields|
  {
    if fields != [] {
      var n := |fields|;
      ContentFieldsMembers(fields[..n - 1]);
      assert fields == fields[..n - 1] + [fields[n - 1]];
    }
  }

  /** The columns with content, in increasing order. */
  function ContentColumns(fields: seq<string>): (cols: seq<nat>)
    ensures forall k :: 0 <= k < |cols| ==> cols[k] < |fields| && HasContent(fields[cols[k]])
    ensures forall k, l :: 0 <= k < l < |cols| ==> cols[k] < cols[l]
    ensures forall col :: 0 <= col < |fields| && HasContent(fields[col]) ==> col in cols
  {
    if fields == [] then []
    else
      var n := |fields|;
      assert forall col :: 0 <= col < n - 1 ==> fields[..n - 1][col] == fields[col];
      ContentColumns(fields[..n - 1]) + (if HasContent(fields[n - 1]) then [n - 1] else [])
  }

  /** The jobs of the column loop over `fields` for row `idx`, drawing on the background `path`. */
  function ColumnJobs(path: string, name: string, idx: nat, fields: seq<string>, clock: (nat, nat) -> string): (jobs: seq<Job>)
    ensures |jobs| <= |fields|
  {
    if fields == [] then []
    else
      var n := |fields|;
      var text := fields[n - 1];
      var init := ColumnJobs(path, name, idx, fields[..n - 1], clock);
      assert forall col :: 0 <= col < n - 1 ==> fields[..n - 1][col] == fields[col];
      init + (if HasContent(text) then [Job(path, text, ColumnPath(clock(idx, n - 1), name, idx, n - 1))] else [])
  }

  /** The value of `timestamp` after the column loop over `fields` of row `idx`, starting from `stamp`. */
  function LastStamp(stamp: Option<string>, idx: nat, fields: seq<string>, clock: (nat, nat) -> string): (r: Option<string>)
    ensures (forall col :: 0 <= col < |fields| ==> !HasContent(fields[col])) ==> r == stamp
    ensures r.Some? <==> stamp.Some? || exists col :: 0 <= col < |fields| && HasContent(fields[col])
  {
    if fields == [] then stamp
    else
      var n := |fields|;
      assert forall col :: 0 <= col < n - 1 ==> fields[..n - 1][col] == fields[col];
      if HasContent(fields[n - 1]) then Some(clock(idx, n - 1))
      else LastStamp(stamp, idx, fields[..n - 1], clock)
  }

  /**
   * After the column loop, a row with some field with content leaves in
   * `timestamp` the reading taken for its last column with content.
   */
  lemma {:induction false} LastStampIsLastReading(stamp: Option<string>, idx: nat, fields: seq<string>, clock: (nat, nat) -> string)
    requires ContentColumns(fields) != []
    ensures var cols := ContentColumns(fields);
      LastStamp(stamp, idx, fields, clock) == Some(clock(idx, cols[|cols| - 1]))
    decreases |fields|
  {
    var n := |fields|;
    var init := fields[..n - 1];
    if !HasContent(fields[n - 1]) {
      assert ContentColumns(fields) == ContentColumns(init);
      LastStampIsLastReading(stamp, idx, init, clock);
    }
  }

  /** One iteration of the loop over the rows: `get_random_image()`, then the rest of the row. */
  function RowStep(b: Batch, idx: nat, row: seq<string>, env: Environment): Batch {
    if b.crashed then b
    else AfterPick(b, PickImage(env.imagesPresent, b.listing, env.roll(idx)), idx, row, env.clock)
  }

  /** The rest of the iteration for row `idx` once `pick` came back. */
  function AfterPick(b: Batch, pick: Pick, idx: nat, row: seq<string>, clock: (nat, nat) -> string): Batch {
    var listing := ListingAfter(b.listing, pick);
    if pick.NoImage? then b.(listing := listing)
    else
      var columns := ColumnJobs(pick.path, pick.name, idx, row, clock);
      var stamp := LastStamp(b.timestamp, idx, row, clock);
      if stamp.None? then Batch(b.jobs + columns, listing, stamp, true)
      else
        var closing := Job(pick.path, FixedText, FinalPath(stamp.value, pick.name, idx));
        Batch(b.jobs + columns + [closing], listing, stamp, false)
  }

  /** The state after the loop over the rows `rows`. */
  function Plan(rows: seq<seq<string>>, env: Environment): Batch {
    if rows == [] then Batch([], env.listing, None, false)
    else
      var n := |rows|;
      RowStep(Plan(rows[..n - 1], env), n - 1, rows[n - 1], env)
  }

  /**
   * The loop over the columns of row `idx`, starting from the images written so
   * far and the current value of `timestamp`: one image per field with content.
   */
  method WriteColumns(path: string, name: string, idx: nat, row: seq<string>, clock: (nat, nat) -> string,
                      jobs0: seq<Job>, stamp0: Option<string>) returns (jobs: seq<Job>, timestamp: Option<string>)
    ensures jobs == jobs0 + ColumnJobs(path, name, idx, row, clock)
    ensures timestamp == LastStamp(stamp0, idx, row, clock)
  {
    jobs, timestamp := jobs0, stamp0;
    for col := 0 to |row|
      invariant jobs == jobs0 + ColumnJobs(path, name, idx, row[..col], clock)
      invariant timestamp == LastStamp(stamp0, idx, row[..col], clock)
    {
      var text := row[col];
      ColumnStep(path, name, idx, row, clock, stamp0, col);
      if Strip(text) != [] {
        timestamp := Some(clock(idx, col));
        var outputPath := ColumnPath(timestamp.value, name, idx, col);
        jobs := jobs + [Job(path, text, outputPath)];
      }
    }
    assert row[..|row|] == row;
  }

  /**
   * `create_slideshow(data)`: whether the output directory is created, the
   * images written in order, and whether the run stopped on an unbound
   * `timestamp`.
   */
  method CreateSlideshow(data: seq<seq<string>>, env: Environment) returns (makeDir: bool, jobs: seq<Job>, crashed: bool)
    ensures makeDir == !env.outputExists
    ensures jobs == Plan(data, env).jobs
    ensures crashed == Plan(data, env).crashed
  {
    makeDir := !env.outputExists;
    jobs := [];
    crashed := false;
    var listing := env.listing;
    var timestamp: Option<string> := None;
    for idx := 0 to |data|
      invariant Plan(data[..idx], env) == Batch(jobs, listing, timestamp, false)
    {
      var row := data[idx];
      PlanStep(data, env, idx);
      ghost var b := Batch(jobs, listing, timestamp, false);
      var pick := PickImage(env.imagesPresent, listing, env.roll(idx));
      listing := ListingAfter(listing, pick);
      if pick.NoImage? {
        continue;
      }
      AfterPickPicked(b, pick, idx, row, env.clock);
      jobs, timestamp := WriteColumns(pick.path, pick.name, idx, row, env.clock, jobs, timestamp);
      if timestamp.None? {
        crashed := true;
        PlanCrashSticky(data, env, idx + 1, |data|);
        assert data[..|data|] == data;
        return;
      }
      var fixedOutputPath := FinalPath(timestamp.value, pick.name, idx);
      jobs := jobs + [Job(pick.path, FixedText, fixedOutputPath)];
    }
    assert data[..|data|] == data;
  }

  /** `main()` from the rows `csv.reader` yields: the slideshow is made only when some data row was loaded. */
  method MainProcess(rows: seq<seq<string>>, env: Environment) returns (makeDir: bool, jobs: seq<Job>, crashed: bool)
    ensures var data := DataFromRows(rows);
      && (data == [] ==> !makeDir && jobs == [] && !crashed)
      && (data != [] ==> makeDir == !env.outputExists && jobs == Plan(data, env).jobs && crashed == Plan(data, env).crashed)
  {
    var data := DataFromRows(rows);
    if data != [] {
      makeDir, jobs, crashed := CreateSlideshow(data, env);
    } else {
      makeDir, jobs, crashed := false, [], false;
    }
  }

  // ---------------------------------------------------------------------------
  // The loops, one step at a time
  // ---------------------------------------------------------------------------

  lemma PlanStep(rows: seq<seq<string>>, env: Environment, k: nat)
    requires k < |rows|
    ensures Plan(rows[..k + 1], env) == RowStep(Plan(rows[..k], env), k, rows[k], env)
  {
    assert rows[..k + 1][..k] == rows[..k];
  }

  lemma ColumnStep(path: string, name: string, idx: nat, fields: seq<string>, clock: (nat, nat) -> string, stamp: Option<string>, k: nat)
    requires k < |fields|
    ensures ColumnJobs(path, name, idx, fields[..k + 1], clock) ==
      ColumnJobs(path, name, idx, fields[..k], clock) + (if HasContent(fields[k]) then [Job(path, fields[k], ColumnPath(clock(idx, k), name, idx, k))] else [])
    ensures LastStamp(stamp, idx, fields[..k + 1], clock) ==
      if HasContent(fields[k]) then Some(clock(idx, k)) else LastStamp(stamp, idx, fields[..k], clock)
  {
    assert fields[..k + 1][..k] == fields[..k];
  }

  /** The state after a row that got an image, piece by piece. */
  lemma AfterPickPicked(b: Batch, pick: Pick, idx: nat, row: seq<string>, clock: (nat, nat) -> string)
    requires pick.Picked?
    ensures var after := AfterPick(b, pick, idx, row, clock);
      var stamp := LastStamp(b.timestamp, idx, row, clock);
      && after.listing == ListingAfter(b.listing, pick)
      && after.timestamp == stamp
      && after.crashed == stamp.None?
      && after.jobs == b.jobs + ColumnJobs(pick.path, pick.name, idx, row, clock)
        + (if stamp.None? then [] else [Job(pick.path, FixedText, FinalPath(stamp.value, pick.name, idx))])
  {
  }

  /**
   * One row of a run that has not stopped: without an image nothing is written
   * and `timestamp` is untouched; with one, a row that goes on writes its column
   * images and then the closing image, named with the reading of its last
   * column with content, or with the earlier value of `timestamp` when it has none.
   */
  lemma RowJobs(b: Batch, idx: nat, row: seq<string>, env: Environment)
    requires !b.crashed
    ensures var pick := PickImage(env.imagesPresent, b.listing, env.roll(idx));
      var after := RowStep(b, idx, row, env);
      var cols := ContentColumns(row);
      && (pick.NoImage? ==> after.jobs == b.jobs && after.timestamp == b.timestamp && !after.crashed)
      && (pick.Picked? && !after.crashed ==>
            && after.timestamp == (if cols != [] then Some(env.clock(idx, cols[|cols| - 1])) else b.timestamp)
            && after.timestamp.Some?
            && after.jobs == b.jobs + ColumnJobs(pick.path, pick.name, idx, row, env.clock)
                 + [Job(pick.path, FixedText, FinalPath(after.timestamp.value, pick.name, idx))])
  {
    var pick := PickImage(env.imagesPresent, b.listing, env.roll(idx));
    if pick.Picked? {
      AfterPickPicked(b, pick, idx, row, env.clock);
      var cols := ContentColumns(row);
      if cols != [] {
        LastStampIsLastReading(b.timestamp, idx, row, env.clock);
      } else {
        assert forall col :: 0 <= col < |row| ==> !HasContent(row[col]);
      }
    }
  }

  lemma PlanCrashStep(rows: seq<seq<string>>, env: Environment, k: nat)
    requires k < |rows|
    requires Plan(rows[..k], env).crashed
    ensures Plan(rows[..k + 1], env) == Plan(rows[..k], env)
  {
    PlanStep(rows, env, k);
  }

  /** Once the run has stopped, later rows change nothing. */
  lemma {:induction false} PlanCrashSticky(rows: seq<seq<string>>, env: Environment, k: nat, m: nat)
    requires k <= m <= |rows|
    requires Plan(rows[..k], env).crashed
    ensures Plan(rows[..m], env) == Plan(rows[..k], env)
    decreases m - k
  {
    if k < m {
      PlanCrashSticky(rows, env, k, m - 1);
      PlanCrashStep(rows, env, m - 1);
    }
  }

  // ---------------------------------------------------------------------------
  // What the plan contains
  // ---------------------------------------------------------------------------

  /** With no image directory, or no candidate in it, no row gets an image: nothing is written and the run ends normally. */
  lemma {:induction false} NoImageNoJobs(rows: seq<seq<string>>, env: Environment)
    requires !env.imagesPresent || Candidates(env.listing) == []
    ensures Plan(rows, env) == Batch([], env.listing, None, false)
    decreases |rows|
  {
    if rows != [] {
      NoImageNoJobs(rows[..|rows| - 1], env);
    }
  }

  /** A listing that kept the old entries keeps the old candidates. */
  lemma CandidatesKept(names: seq<string>, after: seq<string>)
    requires forall x :: x in names ==> x in after
    requires Candidates(names) != []
    ensures Candidates(after) != []
  {
    CandidatesMembers(names);
    CandidatesMembers(after);
    var c := Candidates(names)[0];
    assert c in Candidates(names);
    assert c in Candidates(after);
  }

  lemma RowKeepsCandidates(b: Batch, idx: nat, row: seq<string>, env: Environment)
    requires Candidates(b.listing) != []
    ensures Candidates(RowStep(b, idx, row, env).listing) != []
  {
    if !b.crashed {
      var pick := PickImage(env.imagesPresent, b.listing, env.roll(idx));
      ListingAfterMembers(b.listing, pick);
      CandidatesKept(b.listing, ListingAfter(b.listing, pick));
    }
  }

  /** When the directory holds a candidate at the start, it holds one before every row. */
  lemma {:induction false} ImagesStayAvailable(rows: seq<seq<string>>, env: Environment)
    requires env.imagesPresent && Candidates(env.listing) != []
    ensures Candidates(Plan(rows, env).listing) != []
    decreases |rows|
  {
    if rows != [] {
      var n := |rows|;
      ImagesStayAvailable(rows[..n - 1], env);
      RowKeepsCandidates(Plan(rows[..n - 1], env), n - 1, rows[n - 1], env);
    }
  }

  /** The texts of a sequence of jobs, in order. */
  function Texts(jobs: seq<Job>): (texts: seq<string>)
    ensures |texts| == |jobs|
  {
    if jobs == [] then [] else Texts(jobs[..|jobs| - 1]) + [jobs[|jobs| - 1].text]
  }

  lemma {:induction false} TextsAppend(a: seq<Job>, b: seq<Job>)
    ensures Texts(a + b) == Texts(a) + Texts(b)
    decreases |b|
  {
    if b == [] {
      assert a + b == a;
    } else {
      var n := |b|;
      assert (a + b)[..|a + b| - 1] == a + b[..n - 1];
      TextsAppend(a, b[..n - 1]);
    }
  }

  /**
   * The column loop writes one image per column with content, in column order:
   * the k-th carries the k-th such field and is named after its row and column.
   */
  lemma {:induction false} ColumnJobsAt(path: string, name: string, idx: nat, fields: seq<string>, clock: (nat, nat) -> string, k: nat)
    requires k < |ContentColumns(fields)|
    ensures var jobs := ColumnJobs(path, name, idx, fields, clock);
      var col := ContentColumns(fields)[k];
      && |jobs| == |ContentColumns(fields)|
      && jobs[k] == Job(path, fields[col], ColumnPath(clock(idx, col), name, idx, col))
    decreases |fields|
  {
    var n := |fields|;
    var init := fields[..n - 1];
    var cols := ContentColumns(init);
    ColumnJobsCount(path, name, idx, init, clock);
    if k < |cols| {
      ColumnJobsAt(path, name, idx, init, clock, k);
      assert init[cols[k]] == fields[cols[k]];
    }
  }

  lemma {:induction false} ColumnJobsCount(path: string, name: string, idx: nat, fields: seq<string>, clock: (nat, nat) -> string)
    ensures |ColumnJobs(path, name, idx, fields, clock)| == |ContentColumns(fields)|
    decreases |fields|
  {
    if fields != [] {
      ColumnJobsCount(path, name, idx, fields[..|fields| - 1], clock);
    }
  }

  /** The texts of the column loop's images are the fields with content, in column order. */
  lemma {:induction false} ColumnTexts(path: string, name: string, idx: nat, fields: seq<string>, clock: (nat, nat) -> string)
    ensures Texts(ColumnJobs(path, name, idx, fields, clock)) == ContentFields(fields)
    decreases |fields|
  {
    if fields != [] {
      var n := |fields|;
      var init := ColumnJobs(path, name, idx, fields[..n - 1], clock);
      var last := if HasContent(fields[n - 1]) then [Job(path, fields[n - 1], ColumnPath(clock(idx, n - 1), name, idx, n - 1))] else [];
      ColumnTexts(path, name, idx, fields[..n - 1], clock);
      TextsAppend(init, last);
      assert Texts(last) == if HasContent(fields[n - 1]) then [fields[n - 1]] else [];
    }
  }

  lemma ContentFieldsEmpty(fields: seq<string>)
    ensures ContentFields(fields) == [] <==> forall col :: 0 <= col < |fields| ==> !HasContent(fields[col])
  {
    ContentFieldsMembers(fields);
    if ContentFields(fields) == [] {
      forall col | 0 <= col < |fields| ensures !HasContent(fields[col]) {
        assert fields[col] in fields;
      }
    } else {
      var t := ContentFields(fields)[0];
      assert t in ContentFields(fields);
    }
  }

  /** The texts written for `rows` when every row gets an image: its fields with content, then the closing text. */
  function PlannedTexts(rows: seq<seq<string>>): (texts: seq<string>)
    ensures |texts| >= |rows|
  {
    if rows == [] then []
    else PlannedTexts(rows[..|rows| - 1]) + ContentFields(rows[|rows| - 1]) + [FixedText]
  }

  /** A row with an image available stops the run exactly when it has no field with content and `timestamp` is still unbound. */
  lemma RowStops(b: Batch, idx: nat, row: seq<string>, env: Environment)
    requires env.imagesPresent && Candidates(b.listing) != []
    ensures var after := RowStep(b, idx, row, env);
      && (after.crashed <==> b.crashed || (b.timestamp.None? && ContentFields(row) == []))
      && (!b.crashed ==> (after.timestamp.Some? <==> !after.crashed))
  {
    if !b.crashed {
      var pick := PickImage(env.imagesPresent, b.listing, env.roll(idx));
      AfterPickPicked(b, pick, idx, row, env.clock);
      ContentFieldsEmpty(row);
    }
  }

  /** A row with an image available that does not stop the run adds its fields with content and then the closing text. */
  lemma RowTexts(b: Batch, idx: nat, row: seq<string>, env: Environment)
    requires env.imagesPresent && Candidates(b.listing) != []
    ensures var after := RowStep(b, idx, row, env);
      !after.crashed ==> !b.crashed && Texts(after.jobs) == Texts(b.jobs) + ContentFields(row) + [FixedText]
  {
    if !b.crashed {
      var pick := PickImage(env.imagesPresent, b.listing, env.roll(idx));
      AfterPickPicked(b, pick, idx, row, env.clock);
      var columns := ColumnJobs(pick.path, pick.name, idx, row, env.clock);
      var stamp := LastStamp(b.timestamp, idx, row, env.clock);
      ColumnTexts(pick.path, pick.name, idx, row, env.clock);
      if stamp.Some? {
        var closing := Job(pick.path, FixedText, FinalPath(stamp.value, pick.name, idx));
        TextsAppend(b.jobs, columns);
        TextsAppend(b.jobs + columns, [closing]);
        assert Texts([closing]) == [FixedText];
      }
    }
  }

  lemma PlanRowStops(rows: seq<seq<string>>, env: Environment)
    requires rows != [] && env.imagesPresent
    requires Candidates(Plan(rows[..|rows| - 1], env).listing) != []
    ensures var n := |rows|; var b := Plan(rows[..n - 1], env); var after := Plan(rows, env);
      && (b.crashed ==> after == b)
      && (!b.crashed ==> (after.crashed <==> b.timestamp.None? && ContentFields(rows[n - 1]) == []))
      && (!b.crashed ==> (after.timestamp.Some? <==> !after.crashed))
  {
    var n := |rows|;
    RowStops(Plan(rows[..n - 1], env), n - 1, rows[n - 1], env);
  }

  lemma PlanRowTexts(rows: seq<seq<string>>, env: Environment)
    requires rows != [] && env.imagesPresent
    requires Candidates(Plan(rows[..|rows| - 1], env).listing) != []
    ensures var n := |rows|; var b := Plan(rows[..n - 1], env); var after := Plan(rows, env);
      !after.crashed ==> Texts(after.jobs) == Texts(b.jobs) + ContentFields(rows[n - 1]) + [FixedText]
  {
    var n := |rows|;
    RowTexts(Plan(rows[..n - 1], env), n - 1, rows[n - 1], env);
  }

  lemma PlanFirstRowStops(rows: seq<seq<string>>, env: Environment)
    requires |rows| == 1 && env.imagesPresent && Candidates(env.listing) != []
    ensures var b := Plan(rows, env);
      && (b.crashed <==> ContentFields(rows[0]) == [])
      && (b.timestamp.Some? <==> !b.crashed)
  {
    assert rows[..0] == [];
    PlanRowStops(rows, env);
  }

  /**
   * When an image is available, the run stops exactly when the first row has no
   * field with content, and `timestamp` is bound after every row of a run that
   * goes on.
   */
  lemma {:induction false} PlanWithImagesStops(rows: seq<seq<string>>, env: Environment)
    requires env.imagesPresent && Candidates(env.listing) != []
    ensures var b := Plan(rows, env);
      && (b.crashed <==> rows != [] && ContentFields(rows[0]) == [])
      && (b.timestamp.Some? <==> rows != [] && !b.crashed)
    decreases |rows|
  {
    if rows != [] {
      var n := |rows|;
      var init := rows[..n - 1];
      if init == [] {
        PlanFirstRowStops(rows, env);
      } else {
        PlanWithImagesStops(init, env);
        ImagesStayAvailable(init, env);
        PlanRowStops(rows, env);
        assert rows[0] == init[0];
      }
    }
  }

  /**
   * When an image is available and the run does not stop, it writes, row after
   * row, one image per field with content in column order and then the closing image.
   */
  lemma {:induction false} PlanWithImagesTexts(rows: seq<seq<string>>, env: Environment)
    requires env.imagesPresent && Candidates(env.listing) != []
    ensures var b := Plan(rows, env);
      !b.crashed ==> Texts(b.jobs) == PlannedTexts(rows)
    decreases |rows|
  {
    if rows != [] {
      var n := |rows|;
      var init := rows[..n - 1];
      PlanWithImagesTexts(init, env);
      ImagesStayAvailable(init, env);
      PlanRowStops(rows, env);
      PlanRowTexts(rows, env);
    }
  }

  // ---------------------------------------------------------------------------
  // File names
  // ---------------------------------------------------------------------------

  lemma {:induction false} NoUnderscore(s: string)
    requires IsDigits(s)
    ensures '_' !in s
  {
  }

  /** Splitting at the first '_' of two strings whose first parts hold none. */
  lemma CutAtUnderscore(a: string, b: string, c: string, d: string)
    requires '_' !in a && '_' !in c
    requires a + "_" + b == c + "_" + d
    ensures a == c && b == d
  {
    var s := a + "_" + b;
    assert forall i :: 0 <= i < |a| ==> s[i] == a[i];
    assert forall i :: 0 <= i < |c| ==> s[i] == c[i];
    assert s[|a|] == '_' && s[|c|] == '_';
    assert |a| == |c|;
    assert a == s[..|a|];
    assert c == s[..|c|];
    assert b == s[|a| + 1..];
    assert d == s[|c| + 1..];
  }

  lemma CancelPrefix(p: string, x: string, y: string)
    requires p + x == p + y
    ensures x == y
  {
    assert x == (p + x)[|p|..];
    assert y == (p + y)[|p|..];
  }

  lemma CancelSuffix(x: string, y: string, q: string)
    requires x + q == y + q
    ensures x == y
  {
    assert x == (x + q)[..|x|];
    assert y == (y + q)[..|y|];
  }

  /** Within one timestamp and image name, different (row, column) pairs are written to different files. */
  lemma ColumnPathInjective(timestamp: string, name: string, idx: nat, col: nat, idx2: nat, col2: nat)
    requires ColumnPath(timestamp, name, idx, col) == ColumnPath(timestamp, name, idx2, col2)
    ensures idx == idx2 && col == col2
  {
    var pre := OutputDirectory + "/slideshow_" + timestamp + "_" + name + "_";
    var r1 := Decimal(idx + 1) + "_" + Decimal(col + 1);
    var r2 := Decimal(idx2 + 1) + "_" + Decimal(col2 + 1);
    ColumnPathParts(timestamp, name, idx, col);
    ColumnPathParts(timestamp, name, idx2, col2);
    CancelPrefix(pre, r1 + ".png", r2 + ".png");
    CancelSuffix(r1, r2, ".png");
    NoUnderscore(Decimal(idx + 1));
    NoUnderscore(Decimal(idx2 + 1));
    CutAtUnderscore(Decimal(idx + 1), Decimal(col + 1), Decimal(idx2 + 1), Decimal(col2 + 1));
    DecimalInjective(idx + 1, idx2 + 1);
    DecimalInjective(col + 1, col2 + 1);
  }

  lemma ColumnPathParts(timestamp: string, name: string, idx: nat, col: nat)
    ensures ColumnPath(timestamp, name, idx, col) ==
      (OutputDirectory + "/slideshow_" + timestamp + "_" + name + "_") + ((Decimal(idx + 1) + "_" + Decimal(col + 1)) + ".png")
  {
  }

  /** A column image never overwrites a closing image: before ".png" stands a digit in one and 'l' in the other. */
  lemma ColumnPathNotFinal(timestamp: string, name: string, idx: nat, col: nat, timestamp2: string, name2: string, idx2: nat)
    ensures ColumnPath(timestamp, name, idx, col) != FinalPath(timestamp2, name2, idx2)
  {
    var p := ColumnPath(timestamp, name, idx, col);
    var q := FinalPath(timestamp2, name2, idx2);
    var d := Decimal(col + 1);
    assert p[|p| - 5] == d[|d| - 1];
    assert q[|q| - 5] == 'l';
  }

  /** A picked image's path is never empty, so `if not image_path` skips exactly the rows without a pick. */
  lemma PickedPathNotEmpty(present: bool, names: seq<string>, roll: nat)
    ensures var p := PickImage(present, names, roll);
      p.Picked? ==> p.path != []
  {
    var p := PickImage(present, names, roll);
    if p.Picked? {
      var c :| c in Candidates(names) && p.chosen == PathJoin(ImageDirectory, c);
      UsableNotEmpty(p.chosen);
    }
  }

  lemma UsableNotEmpty(chosen: string)
    requires chosen != []
    ensures UsablePath(chosen) != []
  {
    if EndsWith(chosen, WebpExtension) {
      ReplaceNotEmpty(chosen, WebpExtension, PngExtension);
    }
  }

  lemma ReplaceNotEmpty(s: string, pat: string, rep: string)
    requires pat != [] && rep != [] && s != []
    ensures Replace(s, pat, rep) != []
  {
  }
}
