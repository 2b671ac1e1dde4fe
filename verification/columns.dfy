/** The column-presence checks the two scripts run after reading the CSV
    file. */
module Columns {
  import opened Seqs
  import opened Options

  /** The columns the static script requires, in the order it reports them. */
  const Required: seq<string> := ["Deaths", "Points", "Wins", "Rank", "Player", "Year"]

  /** Why loading stopped. */
  datatype LoadError =
    | MissingColumns(names: seq<string>)   // static script: lists the absent names
    | MissingKeyColumns                    // animated script: fixed message

  lemma RequiredIsDistinct()
    ensures Distinct(Required)
  {
  }

  /** The required names absent from `header`, in the order of `Required`. */
  function Missing(header: seq<string>): (missing: seq<string>)
    ensures forall c :: c in missing <==> c in Required && c !in header
    ensures IsSubsequence(missing, Required)
  {
    Filter(Required, (c: string) => c !in header)
  }

  /** The order of the report is forced: any list drawn in order from
      `Required` that names exactly the absent columns is `Missing(header)`. */
  lemma MissingIsTheOrderedReport(header: seq<string>, report: seq<string>)
    requires IsSubsequence(report, Required)
    requires forall c :: c in report <==> c in Required && c !in header
    ensures report == Missing(header)
  {
    RequiredIsDistinct();
    DistinctSubsequenceUnique(report, Missing(header), Required);
  }

  /** The static script's check: it raises an error naming the missing
      columns exactly when some required column is absent. */
  function CheckAll(header: seq<string>): (r: Result<(), LoadError>)
    ensures r.Err? <==> exists c :: c in Required && c !in header
    ensures r.Err? ==> r.error.MissingColumns? && r.error.names == Missing(header)
  {
    var missing := Missing(header);
    if |missing| > 0 then
      Err(MissingColumns(missing))
    else
      assert forall c :: c in Required ==> c in header;
      Ok(())
  }

  /** The animated script's check: only Year and Player are looked for. */
  function CheckKeys(header: seq<string>): (r: Result<(), LoadError>)
    ensures r.Err? <==> "Year" !in header || "Player" !in header
    ensures r.Err? ==> r.error == MissingKeyColumns
  {
    if "Year" !in header || "Player" !in header then Err(MissingKeyColumns) else Ok(())
  }

  /** The animated check accepts every header the static check accepts, and
      also headers lacking any of Deaths, Points, Wins or Rank. */
  lemma CheckKeysIsWeaker(header: seq<string>)
    ensures CheckAll(header).Ok? ==> CheckKeys(header).Ok?
    ensures CheckKeys(header).Ok? && "Rank" !in header ==> CheckAll(header).Err?
  {
    if CheckAll(header).Ok? {
      assert Required[4] == "Player" && Required[5] == "Year";
    }
    if "Rank" !in header {
      assert Required[3] == "Rank";
    }
  }

  /** `parts` joined with `sep` between consecutive items (Python's `str.join`). */
  function Join(parts: seq<string>, sep: string): (s: string)
    ensures |parts| == 1 ==> s == parts[0]
    ensures |parts| > 1 ==> parts[0] + sep <= s
    decreases |parts|
  {
    if |parts| == 0 then ""
    else if |parts| == 1 then parts[0]
    else parts[0] + sep + Join(parts[1..], sep)
  }

  /** Splitting the parts before any later part splits the joined text at
      one separator: the parts keep their order and consecutive parts are
      separated by exactly `sep`. */
  lemma {:induction false} JoinSplit(parts: seq<string>, sep: string, k: int)
    requires 0 < k < |parts|
    ensures Join(parts, sep) == Join(parts[..k], sep) + sep + Join(parts[k..], sep)
    decreases k
  {
    if k > 1 {
      var tail := parts[1..];
      JoinSplit(tail, sep, k - 1);
      assert tail[..k - 1] == parts[..k][1..];
      assert tail[k - 1..] == parts[k..];
    } else {
      assert parts[1..] == parts[k..];
    }
  }

  /** Every part appears in the joined text. */
  lemma {:induction false} JoinContainsEach(parts: seq<string>, sep: string)
    ensures forall k :: 0 <= k < |parts| ==> Occurs(parts[k], Join(parts, sep))
    decreases |parts|
  {
    if |parts| == 1 {
      assert OccursAt(parts[0], Join(parts, sep), 0);
    } else if |parts| > 1 {
      var rest := Join(parts[1..], sep);
      JoinContainsEach(parts[1..], sep);
      forall k | 0 <= k < |parts| ensures Occurs(parts[k], Join(parts, sep)) {
        if k == 0 {
          assert Join(parts, sep)[0..|parts[0]|] == parts[0];
          assert OccursAt(parts[0], Join(parts, sep), 0);
        } else {
          assert parts[k] == parts[1..][k - 1];
          OccursRight(parts[k], parts[0] + sep, rest);
        }
      }
    }
  }

  const MissingPrefix: string := "Missing required columns: "

  /** The text printed for a load error: the static script names every
      missing column after a fixed prefix. */
  function Message(e: LoadError): (m: string)
    ensures e.MissingColumns? ==> MissingPrefix <= m
    ensures e.MissingColumns? ==> forall k :: 0 <= k < |e.names| ==> Occurs(e.names[k], m)
    ensures e.MissingColumns? && |e.names| == 1 ==> m == MissingPrefix + e.names[0]
    ensures e.MissingColumns? && |e.names| > 1 ==> MissingPrefix + e.names[0] + ", " <= m
    ensures e.MissingColumns? ==> forall k :: 0 < k < |e.names| ==>
      m == MissingPrefix + Join(e.names[..k], ", ") + ", " + Join(e.names[k..], ", ")
  {
    match e
    case MissingColumns(names) =>
      forall k | 0 < k < |names|
        ensures MissingPrefix + Join(names, ", ") == MissingPrefix + Join(names[..k], ", ") + ", " + Join(names[k..], ", ")
      {
        JoinSplit(names, ", ", k);
      }
      JoinContainsEach(names, ", ");
      forall k | 0 <= k < |names| ensures Occurs(names[k], MissingPrefix + Join(names, ", ")) {
        OccursRight(names[k], MissingPrefix, Join(names, ", "));
      }
      MissingPrefix + Join(names, ", ")
    case MissingKeyColumns => "Missing required columns in the dataset."
  }
}
