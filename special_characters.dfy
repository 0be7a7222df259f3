/**
 * RemoveSpecialCharactersStep: every String other than "N/A" loses the
 * characters outside `[a-zA-Z0-9\s]`; the rows are rebuilt with
 * Collectors.toMap, so a null cell stops the step.
 */
module SpecialCharacters {
  import opened Wrappers
  import opened Text
  import opened Values
  import opened Sequences

  /** The characters `[^a-zA-Z0-9\s]` does not match. */
  predicate Kept(c: char) {
    IsAsciiAlnum(c) || IsRegexSpace(c)
  }

  /** replaceAll("[^a-zA-Z0-9\\s]", ""): delete every character that is not kept. */
  function StripSpecial(s: string): (r: string)
    ensures forall i :: 0 <= i < |r| ==> Kept(r[i])
    ensures IsSubsequence(r, s) && |r| <= |s|
  {
    if s == [] then []
    else
      var rest := StripSpecial(s[1..]);
      SubsequenceCons(rest, s[1..], s[0]);
      assert s == [s[0]] + s[1..];
      var r := if Kept(s[0]) then [s[0]] + rest else rest;
      SubsequenceShorter(r, s);
      r
  }

  /** Text is left alone exactly when it holds no special character. */
  lemma {:induction false} StripSpecialIdentity(s: string)
    ensures StripSpecial(s) == s <==> forall i :: 0 <= i < |s| ==> Kept(s[i])
  {
    if s != [] {
      StripSpecialIdentity(s[1..]);
      if forall i :: 0 <= i < |s| ==> Kept(s[i]) {
        assert forall i :: 0 <= i < |s[1..]| ==> Kept(s[1..][i]) by {
          forall i | 0 <= i < |s[1..]|
            ensures Kept(s[1..][i])
          {
            assert s[1..][i] == s[i + 1];
          }
        }
        assert s == [s[0]] + s[1..];
      } else if !Kept(s[0]) {
        assert |StripSpecial(s)| <= |s[1..]| < |s|;
      } else {
        var j :| 0 <= j < |s| && !Kept(s[j]);
        assert s[1..][j - 1] == s[j];
      }
    }
  }

  lemma StripSpecialIdempotent(s: string)
    ensures StripSpecial(StripSpecial(s)) == StripSpecial(s)
  {
    StripSpecialIdentity(StripSpecial(s));
  }

  /** A String other than exactly "N/A" is stripped; every other value is kept. */
  function CleanValue(v: Value): (r: Value)
    ensures v.Str? && v.s != NotAvailable ==> r == Str(StripSpecial(v.s))
    ensures !v.Str? || v.s == NotAvailable ==> r == v
  {
    if v.Str? && v.s != NotAvailable then Str(StripSpecial(v.s)) else v
  }

  function CleanRow(row: Row): (r: Row)
    ensures r.Keys == row.Keys
    ensures forall k :: k in r ==> r[k] == CleanValue(row[k])
  {
    map k | k in row :: CleanValue(row[k])
  }

  function CleanRows(data: Dataset): (r: Dataset)
    ensures SameShape(data, r)
    ensures forall i, k :: 0 <= i < |r| && k in r[i] ==> r[i][k] == CleanValue(data[i][k])
  {
    seq(|data|, i requires 0 <= i < |data| => CleanRow(data[i]))
  }

  /**
   * Every String other than "N/A" comes out made only of kept characters,
   * in their original order; every other cell comes out as it went in.
   */
  lemma CleanRowsKeepOnlyKept(data: Dataset)
    ensures forall i, k :: 0 <= i < |data| && k in data[i] && data[i][k].Str? && data[i][k].s != NotAvailable ==>
      CleanRows(data)[i][k].Str?
      && (forall j :: 0 <= j < |CleanRows(data)[i][k].s| ==> Kept(CleanRows(data)[i][k].s[j]))
      && IsSubsequence(CleanRows(data)[i][k].s, data[i][k].s)
    ensures forall i, k :: 0 <= i < |data| && k in data[i] && (!data[i][k].Str? || data[i][k].s == NotAvailable) ==>
      CleanRows(data)[i][k] == data[i][k]
  {
  }

  /** The step, with the NullPointerException of Collectors.toMap as an error. */
  function RemoveSpecialCharacters(data: Dataset): Result<Dataset, Error> {
    Collect(CleanRows(data))
  }

  /**
   * The step fails exactly when the input holds a null; otherwise it keeps
   * rows, order and keys, and every changed String is a subsequence of the
   * original made only of kept characters.
   */
  lemma RemoveSpecialCharactersOutcome(data: Dataset)
    ensures RemoveSpecialCharacters(data).Err? <==> !NoNulls(data)
    ensures RemoveSpecialCharacters(data).Ok? ==>
      var r := RemoveSpecialCharacters(data).value;
      SameShape(data, r)
      && forall i, k :: 0 <= i < |r| && k in r[i] ==> r[i][k] == CleanValue(data[i][k])
  {
    var c := CleanRows(data);
    if !NoNulls(data) {
      var i, k :| 0 <= i < |data| && k in data[i] && data[i][k] == Null;
      assert c[i][k] == Null;
    }
  }

  /** Case matters: "n/a" is not the sentinel, so it loses its slash. */
  lemma LowerCaseSentinelStripped()
    ensures CleanValue(Str("n/a")) == Str("na")
  {
    assert "n/a" != NotAvailable;
    assert StripSpecial("a") == "a";
    assert StripSpecial("/a") == "a";
    assert "n/a"[1..] == "/a";
    assert StripSpecial("n/a") == "n" + StripSpecial("/a");
  }

  /** Running the step on its own output changes nothing. */
  lemma RemoveSpecialCharactersIdempotent(data: Dataset)
    requires RemoveSpecialCharacters(data).Ok?
    ensures RemoveSpecialCharacters(RemoveSpecialCharacters(data).value) == RemoveSpecialCharacters(data)
  {
    var once := CleanRows(data);
    var twice := CleanRows(once);
    forall i | 0 <= i < |once|
      ensures twice[i] == once[i]
    {
      forall k | k in once[i]
        ensures twice[i][k] == once[i][k]
      {
        var v := data[i][k];
        if v.Str? && v.s != NotAvailable {
          StripSpecialIdempotent(v.s);
        }
      }
    }
    assert twice == once;
  }
}
