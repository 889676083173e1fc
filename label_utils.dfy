/** `getWitnessLabel` and `getWitnessType`: how a witness is named. */
module LabelUtils {
  import opened Wrappers
  import opened JsString
  import opened Files

  /** `getWitnessLabel`: `W` followed by the id with its first `witness_`
      removed. */
  function GetWitnessLabel(witnessId: string): string {
    "W" + ReplaceFirst(witnessId, "witness_", "")
  }

  /** An id that starts with `witness_` keeps what follows: `witness_N`
      is labelled `WN`. */
  lemma LabelOfWitnessId(n: string)
    ensures GetWitnessLabel("witness_" + n) == "W" + n
  {
    var s := "witness_" + n;
    assert MatchesAt(s, "witness_", 0) by {
      assert s[0..8] == "witness_";
    }
    assert IndexOf(s, "witness_") == Some(0);
    assert s[8..] == n;
  }

  /** An id without `witness_` is labelled `W` + the id. */
  lemma LabelOfOtherId(id: string)
    requires !Contains(id, "witness_")
    ensures GetWitnessLabel(id) == "W" + id
  {
  }

  /** Some file's path contains `p` (case-sensitively). */
  predicate AnyPathContains(files: seq<FileData>, p: string) {
    exists i | 0 <= i < |files| :: Contains(files[i].path, p)
  }

  /** `getWitnessType` (also the witness type of a file group in the
      witnesses store): manuscript over typescript over unknown. */
  function GetWitnessType(files: seq<FileData>): (r: string)
    ensures r == "MS" <==> AnyPathContains(files, "ms-")
    ensures r == "TS" <==> !AnyPathContains(files, "ms-") && AnyPathContains(files, "ts-")
    ensures r == "" <==> !AnyPathContains(files, "ms-") && !AnyPathContains(files, "ts-")
  {
    if AnyPathContains(files, "ms-") then "MS"
    else if AnyPathContains(files, "ts-") then "TS"
    else ""
  }

  /** Adding files can only raise the type: once `MS`, always `MS`. */
  lemma TypeMonotone(a: seq<FileData>, b: seq<FileData>)
    ensures GetWitnessType(a) == "MS" ==> GetWitnessType(a + b) == "MS"
    ensures GetWitnessType(a) == "TS" ==> GetWitnessType(a + b) in {"MS", "TS"}
  {
    if AnyPathContains(a, "ms-") {
      var i :| 0 <= i < |a| && Contains(a[i].path, "ms-");
      assert (a + b)[i] == a[i];
    }
    if AnyPathContains(a, "ts-") {
      var i :| 0 <= i < |a| && Contains(a[i].path, "ts-");
      assert (a + b)[i] == a[i];
    }
  }
}
