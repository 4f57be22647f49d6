/**
  The close-column resolver: `df.columns[df.columns.str.contains('Close', case=False)]`
  followed by "take the first one or raise KeyError".
*/
module Columns {
  import opened Wrappers

  /** The pattern 'Close', folded to lower case. */
  const CloseWord: string := "close"

  /** The message of the KeyError raised when no column matches. */
  const NoCloseMessage: string := "No column containing the word 'Close' found in the CSV file."

  /** ASCII lower-casing of one character. */
  function LowerChar(c: char): char
  {
    if 'A' <= c <= 'Z' then (c as int + 32) as char else c
  }

  function Lower(s: string): (r: string)
    ensures |r| == |s|
    ensures forall i :: 0 <= i < |s| ==> !('A' <= r[i] <= 'Z')
    ensures forall i :: 0 <= i < |s| && !('A' <= s[i] <= 'Z') ==> r[i] == s[i]
    ensures forall i :: 0 <= i < |s| && 'A' <= s[i] <= 'Z' ==> r[i] as int == s[i] as int + 32
  {
    seq(|s|, i requires 0 <= i < |s| => LowerChar(s[i]))
  }

  /** `pat` occurs in `s` starting at offset `k`. */
  ghost predicate OccursAt(s: string, pat: string, k: int)
  {
    0 <= k && k + |pat| <= |s| && s[k..k + |pat|] == pat
  }

  /** Substring search, scanning `s` from the left; a match needs room for the pattern. */
  predicate Contains(s: string, pat: string)
    ensures Contains(s, pat) ==> |pat| <= |s|
    decreases |s|
  {
    if pat <= s then true
    else if |s| == 0 then false
    else Contains(s[1..], pat)
  }

  /** The search finds `pat` exactly when it occurs at some offset. */
  lemma {:induction false} ContainsIffOccurs(s: string, pat: string)
    ensures Contains(s, pat) <==> exists k :: OccursAt(s, pat, k)
    decreases |s|
  {
    if pat <= s {
      assert s[0..|pat|] == pat;
      assert OccursAt(s, pat, 0);
    } else if |s| == 0 {
      assert |pat| > 0;
    } else {
      ContainsIffOccurs(s[1..], pat);
      if Contains(s[1..], pat) {
        var k :| OccursAt(s[1..], pat, k);
        assert s[k + 1..k + 1 + |pat|] == s[1..][k..k + |pat|];
        assert OccursAt(s, pat, k + 1);
      } else {
        forall k | OccursAt(s, pat, k) && k > 0 ensures OccursAt(s[1..], pat, k - 1) {
          assert s[1..][k - 1..k - 1 + |pat|] == s[k..k + |pat|];
        }
        assert !OccursAt(s, pat, 0);
      }
    }
  }

  /** The column name contains "close", ignoring (ASCII) case. */
  predicate MentionsClose(name: string)
  {
    Contains(Lower(name), CloseWord)
  }

  /**
    `str.contains('Close', case=False)`: the name matches exactly when "close" occurs
    in its lower-cased form, and lower-casing the name first changes nothing.
  */
  lemma MentionsCloseIgnoresCase(name: string)
    ensures MentionsClose(name) <==> exists k :: OccursAt(Lower(name), CloseWord, k)
    ensures MentionsClose(Lower(name)) == MentionsClose(name)
  {
    ContainsIffOccurs(Lower(name), CloseWord);
    assert Lower(Lower(name)) == Lower(name);
  }

  /**
    The boolean mask over the column names, applied: the matching names, in column order.
    That no matching name is dropped before the first kept one is proved by CloseColumnsHead.
  */
  function CloseColumns(names: seq<string>): (r: seq<string>)
    ensures |r| <= |names|
    ensures forall i :: 0 <= i < |r| ==> MentionsClose(r[i]) && r[i] in names
    ensures (forall k :: 0 <= k < |names| ==> MentionsClose(names[k])) ==> r == names
  {
    if names == [] then []
    else (if MentionsClose(names[0]) then [names[0]] else []) + CloseColumns(names[1..])
  }

  /** `k` is the position of the leftmost column name that mentions "close". */
  ghost predicate IsFirstClose(names: seq<string>, k: int)
  {
    0 <= k < |names| && MentionsClose(names[k]) &&
    forall j :: 0 <= j < k ==> !MentionsClose(names[j])
  }

  /** The filtered list is empty exactly when no name matches, and otherwise starts with the leftmost match. */
  lemma {:induction false} CloseColumnsHead(names: seq<string>)
    ensures CloseColumns(names) == [] <==> forall k :: 0 <= k < |names| ==> !MentionsClose(names[k])
    ensures CloseColumns(names) != [] ==>
              exists k :: IsFirstClose(names, k) && names[k] == CloseColumns(names)[0]
  {
    if names != [] {
      CloseColumnsHead(names[1..]);
      if MentionsClose(names[0]) {
        assert IsFirstClose(names, 0);
      } else {
        assert forall k :: 1 <= k < |names| ==> names[k] == names[1..][k - 1];
        if CloseColumns(names[1..]) != [] {
          var k :| IsFirstClose(names[1..], k) && names[1..][k] == CloseColumns(names[1..])[0];
          assert IsFirstClose(names, k + 1);
        }
      }
    }
  }

  /**
    The name of the close-price column: the first matching name, or a KeyError when
    no name matches.
  */
  function ResolveCloseColumn(names: seq<string>): (r: Result<string>)
    ensures r.Err? <==> forall k :: 0 <= k < |names| ==> !MentionsClose(names[k])
    ensures r.Err? ==> r.error == KeyError(NoCloseMessage)
    ensures r.Ok? ==> exists k :: IsFirstClose(names, k) && names[k] == r.value
  {
    CloseColumnsHead(names);
    var matches := CloseColumns(names);
    if matches == [] then Err(KeyError(NoCloseMessage)) else Ok(matches[0])
  }

  /** A matching column is never passed over for a later one: the chosen name sits at or before any match. */
  lemma FirstMatchWins(names: seq<string>, j: int)
    requires 0 <= j < |names| && MentionsClose(names[j])
    ensures ResolveCloseColumn(names).Ok?
    ensures exists k :: 0 <= k <= j && names[k] == ResolveCloseColumn(names).value && MentionsClose(names[k])
  {
    var r := ResolveCloseColumn(names);
    assert r.Ok?;
    var k :| IsFirstClose(names, k) && names[k] == r.value;
    assert k <= j;
  }
}
