/** The dependency check of conf_parse (zconf.y) and the calculation of values after it. */
module CheckedValues {
  import opened Expr
  import opened SymbolCache
  import opened SymbolCheck
  import opened SymbolGraph
  import opened SymbolValue

  /** The values are calculated whatever the check has reported. Where no value depends on itself
      the check is clean, exactly one set of values solves all equations, and the memoised
      calculation answers every query with it. */
  method CheckThenCalculate(cfg: Config, env: Env, symbols: seq<Symbol>, curr: map<Symbol, Tristate>,
                            queries: seq<Symbol>)
    returns (clean: bool, answers: seq<Tristate>)
    requires forall s :: s in cfg <==> s in symbols
    ensures clean <==> Acyclic(cfg)
    ensures |answers| == |queries|
    ensures Acyclic(Extended(cfg)) ==> clean && exists w: Values :: Solution(cfg, env, w)
    ensures Acyclic(Extended(cfg)) ==> forall w: Values :: Solution(cfg, env, w) ==> Answers(w, queries, answers)
  {
    var search := new Search(cfg);
    var _ := search.CheckAll(symbols);
    clean := search.reports == [];
    CircleFreeExact(cfg);
    ghost var rank: Symbol -> nat := s => 0;
    if CircleFree(cfg) {
      rank :| Ranked(cfg, rank);
    }
    ghost var all := Universe(Extended(cfg)) + (set q | q in queries);
    var table := new SymbolTable(cfg, env, all, rank, curr);
    answers := table.Recalculate(queries);
    if CircleFree(cfg) {
      CircleFreePasses(cfg);
      assert Solution(cfg, env, table.want);
      forall w: Values | Solution(cfg, env, w) ensures Answers(w, queries, answers) {
        forall i | 0 <= i < |queries| ensures i < |answers| && answers[i] == w(queries[i]) {
          SolutionUnique(cfg, env, rank, w, table.want, queries[i]);
        }
      }
    }
  }

  ghost predicate Answers(w: Values, queries: seq<Symbol>, answers: seq<Tristate>) {
    forall i :: 0 <= i < |queries| ==> i < |answers| && answers[i] == w(queries[i])
  }
}
