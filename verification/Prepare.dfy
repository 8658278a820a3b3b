/** prepareParametersNoDesc as a whole: the statement is rewritten into a buffer and then cut into its commands. */
module Prepare {
  import opened ScanSpec
  import opened ScanSplit
  import opened CommandSplit
  import opened CommandAlone
  import opened Rewriter

  lemma MarkerNoNul(k: nat)
    ensures '\0' !in MarkerText(k)
  {
    var m, n := MarkerShape(k);
    forall p | 0 <= p < |MarkerText(k)| ensures MarkerText(k)[p] != '\0' {}
  }

  lemma {:induction false} RewriteNoNul(s: string, i: nat, k: nat, o: Setting)
    requires i <= |s| && 1 <= o.skip <= 2 && '\0' !in s
    ensures '\0' !in Rewrite(s, i, k, o)
    decreases |s| - i
  {
    if i < |s| {
      RewriteStep(s, i, k, o);
      RewriteNoNul(s, BlockEnd(s, i, o), Numbered(s, i, k), o);
      if s[i] == '?' { MarkerNoNul(k + 1); }
    }
  }

  /** The commands sent to be prepared. They are the commands of the statement, each with its parameters numbered
      from one and counted, if and only if the rewriter wrote these commands where the counter looks for them and each
      of them, taken alone with its semicolon, ends at that semicolon. */
  method PrepareParametersNoDesc(statement: string, escape: bool, lf: bool, before: char)
    returns (stmts: seq<(string, int)>)
    requires Supported(statement, Setting(escape, lf, before, 1))
    ensures var t, o := Rewrite(statement, 0, 0, Setting(escape, lf, before, 1)), Setting(escape, lf, before, 2);
            var cs, n := Commands(statement, 0, o), |Prepared(statement, 0, o)|;
            && stmts == Split(statement, 0, t, 0, o) && 0 < n <= |cs|
            && (stmts == Prepared(statement, 0, o) <==> Starts(t, 0, cs, n) && EachAlone(cs, n, o))
  {
    var o := Setting(escape, lf, before, 2);
    var qb := PrepareStatement(statement, escape, lf, before);
    RewriteNoNul(statement, 0, 0, o.(skip := 1));
    stmts := SplitStatements(statement, qb.buf[..qb.npos], o);
    CommandsArePreparedIff(statement, o);
  }
}
