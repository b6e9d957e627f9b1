/** How `DataProcessor._get_csv_file_path` names the CSV of one category for
    one processing date. */
module CsvPath {

  /** A configured file-name template `prefix{date}suffix`. */
  datatype Template = Template(prefix: string, suffix: string)

  datatype PathError =
    | InvalidCsvType(csvType: string)   // ValueError
    | FileNotFound(path: string)        // FileNotFoundError

  datatype PathResult = Found(path: string) | Failed(error: PathError)

  function Min(a: int, b: int): int {
    if a <= b then a else b
  }

  /** `YYYYMMDD` to `YYYY-MM-DD`, written as the source writes it: three
      Python slices `[:4]`, `[4:6]`, `[6:]` joined by dashes. Python slices
      clamp to the string, so any input gets two dashes. */
  function FormatDate(d: string): (r: string)
    ensures |r| == |d| + 2
  {
    var p, q := Min(4, |d|), Min(6, |d|);
    d[..p] + "-" + d[p..q] + "-" + d[q..]
  }

  /** The dashes sit after the (clamped) fourth and sixth characters, and
      deleting them gives back the input, for every input. */
  lemma FormatDateInverse(d: string)
    ensures var r, p, q := FormatDate(d), Min(4, |d|), Min(6, |d|);
      r[p] == '-' && r[q + 1] == '-' && r[..p] + r[p + 1..q + 1] + r[q + 2..] == d
  {
    var r, p, q := FormatDate(d), Min(4, |d|), Min(6, |d|);
    var head, mid, tail := d[..p], d[p..q], d[q..];
    assert r == (head + "-" + mid + "-") + tail;
    assert |head + "-" + mid + "-"| == q + 2;
    assert r[..p] == head;
    assert r[p + 1..q + 1] == mid;
    assert r[q + 2..] == tail;
    assert head + mid == d[..q];
    assert d[..q] + tail == d;
  }

  /** An eight-character date becomes the ten-character `YYYY-MM-DD`. */
  lemma FormatEightCharacterDate(d: string)
    requires |d| == 8
    ensures var r := FormatDate(d);
      |r| == 10 && r[4] == '-' && r[7] == '-'
      && r[..4] == d[..4] && r[5..7] == d[4..6] && r[8..] == d[6..]
  {
  }

  /** The path of the `csvType` CSV under `inputDir`; the type must be
      "adult" or "general", and the file must exist. */
  function CsvFilePath(csvType: string, targetDate: string, inputDir: string,
                       adultTemplate: Template, generalTemplate: Template,
                       fileExists: string -> bool): (r: PathResult)
    ensures r == Failed(InvalidCsvType(csvType)) <==> csvType != "adult" && csvType != "general"
    ensures var t := if csvType == "adult" then adultTemplate else generalTemplate;
            var p := inputDir + "/" + t.prefix + FormatDate(targetDate) + t.suffix;
      (csvType == "adult" || csvType == "general") ==>
        r == (if fileExists(p) then Found(p) else Failed(FileNotFound(p)))
    ensures r.Found? ==> fileExists(r.path)
  {
    if csvType != "adult" && csvType != "general" then Failed(InvalidCsvType(csvType))
    else
      var template := if csvType == "adult" then adultTemplate else generalTemplate;
      var path := inputDir + "/" + template.prefix + FormatDate(targetDate) + template.suffix;
      if fileExists(path) then Found(path) else Failed(FileNotFound(path))
  }
}
