// The benchmark client's SQL layer: builders that turn select / insert /
// update / delete descriptors into SQL text by joining fragments and then
// filling `%s` placeholders left to right, and the decoder that reads the
// server's pipe-delimited table reply back into rows of cells.
module SqlClient {
  import opened Wrappers
  import opened PyStr

  /** `SQLState`: SUCCESS is 7 and ABORT is 3 in the client. */
  datatype SQLState = SUCCESS | ABORT

  /** The Python exceptions the builders and the decoder can raise. */
  datatype PyError = TypeError | KeyError | IndexError | NameError | ValueError

  /**
   * The `col` argument as a caller passes it: one column name, a list of
   * names, or a tuple of names. Only a list is kept as it is; anything that is
   * not a list is wrapped in a one-element list.
   */
  datatype ColArg = One(name: string) | List(names: seq<string>) | Tuple(items: seq<string>)

  /** One `(column, operator, value)` condition; `val` is `str(value)`. */
  datatype Term = Term(col: string, op: string, val: string)

  /** Number of columns per table, used when the column list is `['*']`. */
  const NumOfCols: map<string, nat> := TableColumns()

  function TableColumns(): (m: map<string, nat>)
    ensures "order_line" in m && m["order_line"] == 10
  {
    map["warehouse" := 9, "stock" := 17, "district" := 11, "customer" := 21, "history" := 8,
        "orders" := 8, "order_line" := 10, "new_orders" := 3, "item" := 5]
  }

  // ---------------------------------------------------------------------------
  // Builders

  /** `p + '%s'` for every fragment `p`. */
  function Holey(ps: seq<string>): (r: seq<string>)
    ensures |r| == |ps|
  {
    seq(|ps|, i requires 0 <= i < |ps| => ps[i] + "%s")
  }

  /** `p + v` for every fragment `p` and its value `v`. */
  function Filled(ps: seq<string>, vs: seq<string>): (r: seq<string>)
    requires |vs| == |ps|
    ensures |r| == |ps|
  {
    seq(|ps|, i requires 0 <= i < |ps| => ps[i] + vs[i])
  }

  /** The `col + op` prefix of each condition, before its placeholder. */
  function TermPrefixes(where: seq<Term>): (r: seq<string>)
    ensures |r| == |where|
  {
    seq(|where|, i requires 0 <= i < |where| => where[i].col + where[i].op)
  }

  /** `param = [ele[-1] for ele in where]`. */
  function Params(where: seq<Term>): (r: seq<string>)
    ensures |r| == |where|
  {
    seq(|where|, i requires 0 <= i < |where| => where[i].val)
  }

  /** `'where a=%s and b=%s'`, or the empty string for no conditions. */
  function WhereClause(where: seq<Term>): string
  {
    if where == [] then "" else Join(" ", ["where", Join(" and ", Holey(TermPrefixes(where)))])
  }

  /** `'order by X asc|desc'`, or the empty string when no order column is given. */
  function OrderClause(orderBy: string, asc: bool): string
  {
    if orderBy == "" then "" else Join(" ", ["order by", orderBy, if asc then "asc" else "desc"])
  }

  /** The column list after wrapping; joining a wrapped tuple raises TypeError. */
  function ColumnList(col: ColArg): (r: Result<seq<string>, PyError>)
    ensures r.Err? <==> col.Tuple?
    ensures col.One? ==> r == Ok([col.name])
  {
    match col
    case One(c) => Ok([c])
    case List(cs) => Ok(cs)
    case Tuple(_) => Err(TypeError)
  }

  /**
   * The text `select` sends. `where == None` stands for the default
   * `where=False`, which makes the parameter comprehension iterate a bool.
   */
  function SelectSql(tables: seq<string>, col: ColArg, where: Option<seq<Term>>,
                     orderBy: string, asc: bool): (r: Result<string, PyError>)
    ensures r.Err? <==> where.None? || col.Tuple?
  {
    if where.None? then Err(TypeError)
    else
      var cols := ColumnList(col);
      if cols.Err? then Err(cols.error)
      else
        var sql := Join(" ", ["select", Join(",", cols.value), "from", Join(",", tables),
                              WhereClause(where.value), OrderClause(orderBy, asc), ";"]);
        Ok(FillPlaceholders(sql, Params(where.value)))
  }

  /** `'%s'` repeated `n` times. */
  function Placeholders(n: nat): (r: seq<string>)
    ensures |r| == n
  {
    seq(n, _ => "%s")
  }

  /** The text `insert` sends: one placeholder per column of the table. */
  function InsertSql(table: string, rows: seq<string>): (r: Result<string, PyError>)
    ensures r.Err? <==> table !in NumOfCols
  {
    if table !in NumOfCols then Err(KeyError)
    else Ok(FillPlaceholders(InsertTemplate(table, NumOfCols[table]), rows))
  }

  /** `insert into T values(%s,...,%s) ;` with `n` placeholders. */
  function InsertTemplate(table: string, n: nat): string
  {
    Join(" ", ["insert", "into", table, "values(" + Join(",", Placeholders(n)) + ")", ";"])
  }

  /** The `col + '='` prefix of each SET pair. */
  function SetPrefixes(row: seq<(string, string)>): (r: seq<string>)
    ensures |r| == |row|
  {
    seq(|row|, i requires 0 <= i < |row| => row[i].0 + "=")
  }

  function SetValues(row: seq<(string, string)>): (r: seq<string>)
    ensures |r| == |row|
  {
    seq(|row|, i requires 0 <= i < |row| => row[i].1)
  }

  /** The text `update` sends: SET values are filled first, then WHERE values. */
  function UpdateSql(table: string, row: seq<(string, string)>, where: Option<seq<Term>>): (r: Result<string, PyError>)
    ensures r.Err? <==> where.None?
  {
    if where.None? then Err(TypeError)
    else
      var sql := Join(" ", ["update", table, "set", Join(",", Holey(SetPrefixes(row))),
                            WhereClause(where.value), ";"]);
      Ok(FillPlaceholders(FillPlaceholders(sql, SetValues(row)), Params(where.value)))
  }

  /** The text `delete` sends. */
  function DeleteSql(table: string, where: Option<seq<Term>>): (r: Result<string, PyError>)
    ensures r.Err? <==> where.None?
  {
    if where.None? then Err(TypeError)
    else
      var sql := Join(" ", ["delete", "from", table, WhereClause(where.value), ";"]);
      Ok(FillPlaceholders(sql, Params(where.value)))
  }

  /** insert / update / delete return ABORT exactly for a reply starting with `abort`. */
  function DmlState(reply: string): (r: Option<SQLState>)
    ensures r == Some(ABORT) <==> StartsWith(reply, "abort")
    ensures r != Some(SUCCESS)
  {
    if StartsWith(reply, "abort") then Some(ABORT) else None
  }

  // ---------------------------------------------------------------------------
  // Placeholder filling

  lemma NoPercentConcat(a: string, b: string)
    ensures NoPercent(a + b) <==> NoPercent(a) && NoPercent(b)
  {
    if NoPercent(a) && NoPercent(b) {
      forall k | 0 <= k < |a + b| ensures (a + b)[k] != '%' {
        if k < |a| { assert (a + b)[k] == a[k]; } else { assert (a + b)[k] == b[k - |a|]; }
      }
    }
    if NoPercent(a + b) {
      forall k | 0 <= k < |a| ensures a[k] != '%' { assert (a + b)[k] == a[k]; }
      forall k | 0 <= k < |b| ensures b[k] != '%' { assert (a + b)[|a| + k] == b[k]; }
    }
  }

  lemma {:induction false} NoPercentJoin(sep: string, parts: seq<string>)
    requires NoPercent(sep) && forall i :: 0 <= i < |parts| ==> NoPercent(parts[i])
    ensures NoPercent(Join(sep, parts))
    decreases |parts|
  {
    if |parts| > 1 {
      NoPercentJoin(sep, parts[1..]);
      NoPercentConcat(parts[0], sep);
      NoPercentConcat(parts[0] + sep, Join(sep, parts[1..]));
    }
  }

  /** A prefix without `%` cannot hold the first placeholder. */
  lemma {:induction false} ReplaceFirstSkip(p: string, s: string, v: string)
    requires NoPercent(p)
    ensures ReplaceFirst(p + s, v) == p + ReplaceFirst(s, v)
    decreases |p|
  {
    if p == [] {
      assert p + s == s;
    } else if |p + s| >= 2 {
      assert (p + s)[0] == p[0];
      assert (p + s)[1..] == p[1..] + s;
      ReplaceFirstSkip(p[1..], s, v);
    }
  }

  lemma FillNone(s: string, vals: seq<string>)
    requires NoPercent(s)
    ensures FillPlaceholders(s, vals) == s
    decreases |vals|
  {
    if vals != [] {
      ReplaceFirstSkip(s, "", vals[0]);
      assert s + "" == s;
      FillNone(s, vals[1..]);
    }
  }

  lemma {:induction false} FillPrefix(p: string, s: string, vals: seq<string>)
    requires NoPercent(p)
    ensures FillPlaceholders(p + s, vals) == p + FillPlaceholders(s, vals)
    decreases |vals|
  {
    if vals != [] {
      ReplaceFirstSkip(p, s, vals[0]);
      FillPrefix(p, ReplaceFirst(s, vals[0]), vals[1..]);
    }
  }

  lemma {:induction false} FillConcat(s: string, a: seq<string>, b: seq<string>)
    ensures FillPlaceholders(s, a + b) == FillPlaceholders(FillPlaceholders(s, a), b)
    decreases |a|
  {
    if a == [] {
      assert a + b == b;
    } else {
      assert (a + b)[0] == a[0];
      assert (a + b)[1..] == a[1..] + b;
      FillConcat(ReplaceFirst(s, a[0]), a[1..], b);
    }
  }

  predicate AllNoPercent(xs: seq<string>)
  {
    forall i :: 0 <= i < |xs| ==> NoPercent(xs[i])
  }

  lemma JoinCons(sep: string, a: string, xs: seq<string>)
    requires |xs| > 0
    ensures Join(sep, [a] + xs) == a + sep + Join(sep, xs)
  {
    assert ([a] + xs)[0] == a;
    assert ([a] + xs)[1..] == xs;
  }

  lemma Join2(sep: string, a: string, b: string)
    ensures Join(sep, [a, b]) == a + sep + b
  {
    JoinCons(sep, a, [b]);
    assert [a] + [b] == [a, b];
  }

  lemma Join3(sep: string, a: string, b: string, c: string)
    ensures Join(sep, [a, b, c]) == a + sep + b + sep + c
  {
    JoinCons(sep, a, [b, c]);
    JoinCons(sep, b, [c]);
    assert [a] + [b, c] == [a, b, c];
    assert [b] + [c] == [b, c];
  }

  lemma Join5(sep: string, a: string, b: string, c: string, d: string, e: string)
    ensures Join(sep, [a, b, c, d, e]) == a + sep + b + sep + c + sep + d + sep + e
  {
    JoinCons(sep, a, [b, c, d, e]);
    JoinCons(sep, b, [c, d, e]);
    Join3(sep, c, d, e);
    assert [a] + [b, c, d, e] == [a, b, c, d, e];
    assert [b] + [c, d, e] == [b, c, d, e];
  }

  lemma Join6(sep: string, a: string, b: string, c: string, d: string, e: string, f: string)
    ensures Join(sep, [a, b, c, d, e, f]) == a + sep + b + sep + c + sep + d + sep + e + sep + f
  {
    JoinCons(sep, a, [b, c, d, e, f]);
    Join5(sep, b, c, d, e, f);
    assert [a] + [b, c, d, e, f] == [a, b, c, d, e, f];
  }

  lemma Join7(sep: string, a: string, b: string, c: string, d: string, e: string, f: string, g: string)
    ensures Join(sep, [a, b, c, d, e, f, g]) == a + sep + b + sep + c + sep + d + sep + e + sep + f + sep + g
  {
    JoinCons(sep, a, [b, c, d, e, f, g]);
    Join6(sep, b, c, d, e, f, g);
    assert [a] + [b, c, d, e, f, g] == [a, b, c, d, e, f, g];
  }

  /** One placeholder step: the first `%s` after a `%`-free prefix takes the first value. */
  lemma FillFirstHole(p: string, t: string, v: string, vs: seq<string>)
    requires NoPercent(p) && NoPercent(v)
    ensures FillPlaceholders(p + "%s" + t, [v] + vs) == p + v + FillPlaceholders(t, vs)
  {
    assert p + "%s" + t == p + ("%s" + t);
    ReplaceFirstSkip(p, "%s" + t, v);
    assert ("%s" + t)[2..] == t;
    assert ReplaceFirst(p + "%s" + t, v) == p + v + t;
    assert ([v] + vs)[0] == v && ([v] + vs)[1..] == vs;
    NoPercentConcat(p, v);
    FillPrefix(p + v, t, vs);
  }

  /** Splitting the first fragment off a run of fragments, filled or not. */
  lemma HolesCons(ps: seq<string>, vals: seq<string>)
    requires 0 < |vals| <= |ps|
    ensures Holey(ps) == [ps[0] + "%s"] + Holey(ps[1..])
    ensures Filled(ps[..|vals|], vals) + Holey(ps[|vals|..])
         == [ps[0] + vals[0]] + (Filled(ps[1..][..|vals| - 1], vals[1..]) + Holey(ps[1..][|vals| - 1..]))
  {
    assert ps[1..][|vals| - 1..] == ps[|vals|..];
  }

  /**
   * Filling a joined run of `p + '%s'` fragments with k <= n values puts the
   * values, in order, into the first k placeholders and leaves the rest.
   */
  lemma {:induction false} FillHoles(sep: string, ps: seq<string>, vals: seq<string>, rest: string)
    requires |vals| <= |ps|
    requires NoPercent(sep) && AllNoPercent(ps) && AllNoPercent(vals)
    ensures FillPlaceholders(Join(sep, Holey(ps)) + rest, vals)
         == Join(sep, Filled(ps[..|vals|], vals) + Holey(ps[|vals|..])) + rest
    decreases |vals|
  {
    if vals == [] {
      assert Filled(ps[..0], vals) + Holey(ps[0..]) == Holey(ps);
    } else {
      HolesCons(ps, vals);
      if |ps| > 1 {
        FillHoles(sep, ps[1..], vals[1..], rest);
        FillHolesStep(sep, ps, vals, rest);
      } else {
        assert vals[1..] == [] && ps[1..] == [];
        assert Join(sep, Holey(ps)) + rest == ps[0] + "%s" + rest;
        FillFirstHole(ps[0], rest, vals[0], vals[1..]);
      }
    }
  }

  lemma Regroup(a: string, b: string, c: string, d: string)
    ensures a + b + c + d == a + (b + (c + d))
  {
  }

  lemma JoinHoleyCons(sep: string, ps: seq<string>)
    requires |ps| > 1
    ensures Join(sep, Holey(ps)) == ps[0] + "%s" + sep + Join(sep, Holey(ps[1..]))
  {
    assert Holey(ps) == [ps[0] + "%s"] + Holey(ps[1..]);
    JoinCons(sep, ps[0] + "%s", Holey(ps[1..]));
  }

  /** The inductive step of `FillHoles`: one more fragment in front of the run. */
  lemma FillHolesStep(sep: string, ps: seq<string>, vals: seq<string>, rest: string)
    requires 0 < |vals| <= |ps| && |ps| > 1
    requires NoPercent(sep) && AllNoPercent(ps) && AllNoPercent(vals)
    requires FillPlaceholders(Join(sep, Holey(ps[1..])) + rest, vals[1..])
          == Join(sep, Filled(ps[1..][..|vals| - 1], vals[1..]) + Holey(ps[1..][|vals| - 1..])) + rest
    ensures FillPlaceholders(Join(sep, Holey(ps)) + rest, vals)
         == Join(sep, [ps[0] + vals[0]] + (Filled(ps[1..][..|vals| - 1], vals[1..]) + Holey(ps[1..][|vals| - 1..]))) + rest
  {
    var p, v, ps', vs := ps[0], vals[0], ps[1..], vals[1..];
    assert vals == [v] + vs;
    assert NoPercent(p) && NoPercent(v);
    assert AllNoPercent(vs) by {
      forall i | 0 <= i < |vs|
        ensures NoPercent(vs[i])
      {
        assert vs[i] == vals[i + 1];
      }
    }
    var after := Filled(ps'[..|vs|], vs) + Holey(ps'[|vs|..]);
    var j := Join(sep, Holey(ps'));
    var t := j + rest;
    JoinHoleyCons(sep, ps);
    Regroup(p + "%s", sep, j, rest);
    FillFirstHole(p, sep + t, v, vs);
    FillPrefix(sep, t, vs);
    JoinCons(sep, p + v, after);
    Regroup(p + v, sep, Join(sep, after), rest);
    calc {
      FillPlaceholders(Join(sep, Holey(ps)) + rest, vals);
      FillPlaceholders(p + "%s" + (sep + t), [v] + vs);
      p + v + FillPlaceholders(sep + t, vs);
      p + v + (sep + FillPlaceholders(t, vs));
      p + v + (sep + (Join(sep, after) + rest));
      p + v + sep + Join(sep, after) + rest;
      Join(sep, [p + v] + after) + rest;
    }
  }

  // The statement templates, regrouped so that the `%`-free prefix stands apart
  // from the part that holds the placeholders.

  lemma InsertShape(table: string, j: string)
    ensures Join(" ", ["insert", "into", table, "values(" + j + ")", ";"])
         == ("insert into " + table + " values(") + (j + ") ;")
    ensures "insert into " + table + " values(" + j + ") ;" == ("insert into " + table + " values(") + (j + ") ;")
  {
    Join5(" ", "insert", "into", table, "values(" + j + ")", ";");
  }

  lemma SelectShape(c: string, t: string, w: string, fw: string, o: string)
    ensures Join(" ", ["select", c, "from", t, w, o, ";"])
         == ("select " + c + " from " + t + " ") + (w + (" " + o + " ;"))
    ensures "select " + c + " from " + t + " " + fw + " " + o + " ;"
         == ("select " + c + " from " + t + " ") + (fw + (" " + o + " ;"))
  {
    Join7(" ", "select", c, "from", t, w, o, ";");
  }

  lemma UpdateShape(table: string, h: string, st: string, w: string, fw: string)
    ensures Join(" ", ["update", table, "set", h, w, ";"])
         == ("update " + table + " set ") + (h + (" " + w + " ;"))
    ensures ("update " + table + " set ") + (st + (" " + w + " ;"))
         == ("update " + table + " set " + st + " ") + (w + " ;")
    ensures "update " + table + " set " + st + " " + fw + " ;"
         == ("update " + table + " set " + st + " ") + (fw + " ;")
  {
    Join6(" ", "update", table, "set", h, w, ";");
  }

  lemma DeleteShape(table: string, w: string, fw: string)
    ensures Join(" ", ["delete", "from", table, w, ";"]) == ("delete from " + table + " ") + (w + " ;")
    ensures ("delete from " + table + " ") + (fw + " ;") == "delete from " + table + " " + fw + " ;"
  {
    Join5(" ", "delete", "from", table, w, ";");
  }

  lemma OrderClauseNoPercent(orderBy: string, asc: bool)
    requires NoPercent(orderBy)
    ensures NoPercent(OrderClause(orderBy, asc))
  {
    if orderBy != "" {
      var dir := if asc then "asc" else "desc";
      Join3(" ", "order by", orderBy, dir);
      assert "order by" + " " + orderBy + " " + dir == "order by " + orderBy + " " + dir;
      NoPercentConcat("order by ", orderBy);
      NoPercentConcat("order by " + orderBy, " ");
      NoPercentConcat("order by " + orderBy + " ", dir);
    }
  }

  lemma InsertLiteralsNoPercent()
    ensures NoPercent("insert into ") && NoPercent(" values(")
  {
  }

  lemma FillInsertTemplate(table: string, n: nat, vals: seq<string>)
    requires |vals| <= n && NoPercent(table) && AllNoPercent(vals)
    ensures FillPlaceholders(InsertTemplate(table, n), vals)
         == "insert into " + table + " values(" + Join(",", vals + Placeholders(n - |vals|)) + ") ;"
  {
    var pre := "insert into " + table + " values(";
    assert NoPercent(pre) by {
      InsertLiteralsNoPercent();
      NoPercentConcat("insert into ", table);
      NoPercentConcat("insert into " + table, " values(");
    }
    InsertShape(table, Join(",", Placeholders(n)));
    FillValues(pre, n, vals);
    InsertShape(table, Join(",", vals + Placeholders(n - |vals|)));
  }

  /** The values fill the first of the n placeholders of the VALUES list. */
  lemma FillValues(pre: string, n: nat, vals: seq<string>)
    requires |vals| <= n && NoPercent(pre) && AllNoPercent(vals)
    ensures FillPlaceholders(pre + (Join(",", Placeholders(n)) + ") ;"), vals)
         == pre + (Join(",", vals + Placeholders(n - |vals|)) + ") ;")
  {
    var blanks := Blanks(n);
    BlanksHoley(n);
    FillAround(pre, ",", blanks, vals, ") ;");
    BlanksFilled(n, vals);
  }

  /** `FillHoles` behind a `%`-free prefix. */
  lemma FillAround(pre: string, sep: string, ps: seq<string>, vals: seq<string>, post: string)
    requires |vals| <= |ps| && NoPercent(pre)
    requires NoPercent(sep) && AllNoPercent(ps) && AllNoPercent(vals)
    ensures FillPlaceholders(pre + (Join(sep, Holey(ps)) + post), vals)
         == pre + (Join(sep, Filled(ps[..|vals|], vals) + Holey(ps[|vals|..])) + post)
  {
    FillPrefix(pre, Join(sep, Holey(ps)) + post, vals);
    FillHoles(sep, ps, vals, post);
  }

  function Blanks(n: nat): (r: seq<string>)
    ensures |r| == n
  {
    seq(n, _ => "")
  }

  lemma BlanksHoley(n: nat)
    ensures Holey(Blanks(n)) == Placeholders(n)
  {
    forall i | 0 <= i < n ensures Holey(Blanks(n))[i] == Placeholders(n)[i] {
      assert "" + "%s" == "%s";
    }
  }

  lemma BlanksFilled(n: nat, vals: seq<string>)
    requires |vals| <= n
    ensures Filled(Blanks(n)[..|vals|], vals) + Holey(Blanks(n)[|vals|..]) == vals + Placeholders(n - |vals|)
  {
    var b := Blanks(n);
    forall i | 0 <= i < |vals| ensures Filled(b[..|vals|], vals)[i] == vals[i] {
      assert "" + vals[i] == vals[i];
    }
    assert Filled(b[..|vals|], vals) == vals;
    assert b[|vals|..] == Blanks(n - |vals|);
    BlanksHoley(n - |vals|);
  }

  /** `insert` fills its placeholders positionally; unfilled ones stay as `%s`. */
  lemma InsertFillsPositionally(table: string, vals: seq<string>)
    requires table in NumOfCols && |vals| <= NumOfCols[table]
    requires NoPercent(table) && AllNoPercent(vals)
    ensures InsertSql(table, vals)
         == Ok("insert into " + table + " values("
               + Join(",", vals + Placeholders(NumOfCols[table] - |vals|)) + ") ;")
  {
    FillInsertTemplate(table, NumOfCols[table], vals);
  }

  /** The WHERE clause with every placeholder replaced by its value. */
  function FilledWhere(where: seq<Term>): string
  {
    if where == [] then "" else "where " + Join(" and ", Filled(TermPrefixes(where), Params(where)))
  }

  predicate TermsNoPercent(where: seq<Term>)
  {
    forall i :: 0 <= i < |where| ==> NoPercent(where[i].col) && NoPercent(where[i].op) && NoPercent(where[i].val)
  }

  lemma FillWhere(where: seq<Term>, rest: string)
    requires TermsNoPercent(where) && NoPercent(rest)
    ensures FillPlaceholders(WhereClause(where) + rest, Params(where)) == FilledWhere(where) + rest
  {
    if where == [] {
      assert WhereClause(where) + rest == rest;
    } else {
      var ps := TermPrefixes(where);
      PrefixesNoPercent(where);
      var j := Join(" and ", Holey(ps));
      Join2(" ", "where", j);
      assert WhereClause(where) + rest == "where " + (j + rest);
      FillPrefix("where ", j + rest, Params(where));
      FillEveryHole(ps, Params(where), rest);
    }
  }

  lemma PrefixesNoPercent(where: seq<Term>)
    requires TermsNoPercent(where)
    ensures AllNoPercent(TermPrefixes(where)) && AllNoPercent(Params(where))
  {
    var ps := TermPrefixes(where);
    forall i | 0 <= i < |ps| ensures NoPercent(ps[i]) { NoPercentConcat(where[i].col, where[i].op); }
  }

  /** As many values as holes: every hole of the WHERE list is filled. */
  lemma FillEveryHole(ps: seq<string>, vals: seq<string>, rest: string)
    requires |vals| == |ps| && AllNoPercent(ps) && AllNoPercent(vals)
    ensures FillPlaceholders(Join(" and ", Holey(ps)) + rest, vals) == Join(" and ", Filled(ps, vals)) + rest
  {
    FillHoles(" and ", ps, vals, rest);
    assert ps[..|vals|] == ps && ps[|vals|..] == [];
    assert Filled(ps, vals) + Holey([]) == Filled(ps, vals);
  }

  /** `select` places each WHERE value, in order, after its `col op`. */
  lemma SelectFillsWhereInOrder(tables: seq<string>, cols: seq<string>, where: seq<Term>,
                                orderBy: string, asc: bool)
    requires AllNoPercent(tables) && AllNoPercent(cols) && NoPercent(orderBy) && TermsNoPercent(where)
    ensures SelectSql(tables, List(cols), Some(where), orderBy, asc)
         == Ok("select " + Join(",", cols) + " from " + Join(",", tables) + " "
               + FilledWhere(where) + " " + OrderClause(orderBy, asc) + " ;")
  {
    var c, t := Join(",", cols), Join(",", tables);
    var o := OrderClause(orderBy, asc);
    var w := WhereClause(where);
    SelectShape(c, t, w, FilledWhere(where), o);
    NoPercentJoin(",", cols);
    NoPercentJoin(",", tables);
    NoPercentConcat("select ", c);
    NoPercentConcat("select " + c, " from ");
    NoPercentConcat("select " + c + " from ", t);
    NoPercentConcat("select " + c + " from " + t, " ");
    var pre := "select " + c + " from " + t + " ";
    OrderClauseNoPercent(orderBy, asc);
    NoPercentConcat(" ", o);
    NoPercentConcat(" " + o, " ;");
    FillPrefix(pre, w + (" " + o + " ;"), Params(where));
    FillWhere(where, " " + o + " ;");
  }

  predicate RowNoPercent(row: seq<(string, string)>)
  {
    forall i :: 0 <= i < |row| ==> NoPercent(row[i].0) && NoPercent(row[i].1)
  }

  /** `update` fills the SET values first and the WHERE values after them, each in list order. */
  lemma UpdateFillsSetThenWhere(table: string, row: seq<(string, string)>, where: seq<Term>)
    requires NoPercent(table) && RowNoPercent(row) && TermsNoPercent(where)
    ensures UpdateSql(table, row, Some(where))
         == Ok("update " + table + " set " + Join(",", Filled(SetPrefixes(row), SetValues(row))) + " "
               + FilledWhere(where) + " ;")
  {
    var ps, vs := SetPrefixes(row), SetValues(row);
    forall i | 0 <= i < |ps| ensures NoPercent(ps[i]) { NoPercentConcat(row[i].0, "="); }
    var w := WhereClause(where);
    var h := Join(",", Holey(ps));
    var st := Join(",", Filled(ps, vs));
    UpdateShape(table, h, st, w, FilledWhere(where));
    NoPercentConcat("update ", table);
    NoPercentConcat("update " + table, " set ");
    var pre := "update " + table + " set ";
    FillPrefix(pre, h + (" " + w + " ;"), vs);
    FillHoles(",", ps, vs, " " + w + " ;");
    assert ps[..|vs|] == ps && ps[|vs|..] == [];
    assert Filled(ps, vs) + Holey([]) == Filled(ps, vs);
    forall i | 0 <= i < |ps| ensures NoPercent(Filled(ps, vs)[i]) { NoPercentConcat(ps[i], vs[i]); }
    NoPercentJoin(",", Filled(ps, vs));
    NoPercentConcat(pre, st);
    NoPercentConcat(pre + st, " ");
    FillPrefix(pre + st + " ", w + " ;", Params(where));
    FillWhere(where, " ;");
  }

  /** `delete` places each WHERE value, in order, after its `col op`. */
  lemma DeleteFillsWhereInOrder(table: string, where: seq<Term>)
    requires NoPercent(table) && TermsNoPercent(where)
    ensures DeleteSql(table, Some(where)) == Ok("delete from " + table + " " + FilledWhere(where) + " ;")
  {
    var w := WhereClause(where);
    DeleteShape(table, w, FilledWhere(where));
    NoPercentConcat("delete from ", table);
    NoPercentConcat("delete from " + table, " ");
    FillPrefix("delete from " + table + " ", w + " ;", Params(where));
    FillWhere(where, " ;");
  }

  // ---------------------------------------------------------------------------
  // Reply decoding

  /** Cells that are stripped of white space and free of pipes. */
  predicate Clean(cells: seq<string>)
  {
    forall c :: c in cells ==> IsStripped(c) && '|' !in c
  }

  /** Every row has `n` cells, each stripped of white space and free of pipes. */
  ghost predicate WellShaped(rows: seq<seq<string>>, n: nat)
  {
    forall r :: r in rows ==> |r| == n && Clean(r)
  }

  /** The cursor after the header: the first pipe, then n more pipes. */
  function SkipHeader(s: string, n: nat): (idx: int)
    ensures -1 <= idx < |s|
  {
    if n == 0 then Find(s, '|', 0) else Find(s, '|', SkipHeader(s, n - 1) + 1)
  }

  /**
   * One step of the cursor from idx: the next cell starts after the first
   * pipe past idx, and a later pipe must close it (None otherwise). When no
   * pipe follows idx at all, `find` gives -1 and, as written (`wrap`), the
   * cell starts at index 0: the cursor wraps to the front of the reply. The
   * checked step (`!wrap`) stops there instead.
   */
  function Step(s: string, idx: int, wrap: bool): (r: Option<int>)
    requires -1 <= idx < |s|
    ensures r.Some? ==> 0 <= r.value < |s| && Find(s, '|', r.value) != -1
    ensures r.Some? ==> (r.value == 0 <==> Find(s, '|', idx + 1) == -1)
    ensures r.Some? && r.value != 0 ==> idx < r.value
    ensures r.Some? && !wrap ==> r.value != 0
  {
    var p := Find(s, '|', idx + 1);
    if p == -1 && !wrap then None
    else if Find(s, '|', p + 1) == -1 then None
    else Some(p + 1)
  }

  /**
   * The walk of the cursor from idx meets a cell that no pipe closes within
   * k steps. The decoder's loops take exactly these steps, one per cell and
   * one between rows, and stop exactly there.
   */
  predicate Halts(s: string, idx: int, k: nat, wrap: bool)
    requires -1 <= idx < |s|
    decreases k
  {
    k > 0 && (Step(s, idx, wrap).None? || Halts(s, Step(s, idx, wrap).value, k - 1, wrap))
  }

  /** Steps enough for every walk that stops at all (see `HaltsWithinBound`). */
  function Bound(s: string): nat
  {
    2 * |s| + 1
  }

  /** The decoder of `select` finishes on reply s with n columns. */
  predicate Decodable(s: string, n: nat)
  {
    Halts(s, SkipHeader(s, n), Bound(s), true)
  }

  /** The first index in [i, e) not holding white space, or e. */
  function Lead(s: string, i: nat, e: nat): (l: nat)
    requires i <= e <= |s|
    ensures i <= l <= e && (l < e ==> !IsSpace(s[l]))
    decreases e - i
  {
    if i < e && IsSpace(s[i]) then Lead(s, i + 1, e) else i
  }

  /** The index just past the last one in [l, e) not holding white space, or l. */
  function Trail(s: string, l: nat, e: nat): (r: nat)
    requires l <= e <= |s|
    ensures l <= r <= e && (l < r ==> !IsSpace(s[r - 1]))
    decreases e
  {
    if l < e && IsSpace(s[e - 1]) then Trail(s, l, e - 1) else e
  }

  /**
   * The cell starting at start: the text up to the next pipe without its
   * leading and trailing white space (`StripCell` shows it is what `strip`
   * gives).
   */
  function CellText(s: string, start: nat): (c: string)
    requires start < |s| && Find(s, '|', start) != -1
    ensures IsStripped(c) && '|' !in c
  {
    var e := Find(s, '|', start);
    var l := Lead(s, start, e);
    var r := Trail(s, l, e);
    assert '|' !in s[l..r] by {
      forall k | 0 <= k < r - l
        ensures s[l..r][k] != '|'
      {
        assert s[l..r][k] == s[l + k];
      }
    }
    s[l..r]
  }

  /** Dropping leading white space from s[i..e] leaves s[Lead(s, i, e)..e]. */
  lemma {:induction false} StripLeftAt(s: string, i: nat, e: nat)
    requires i <= e <= |s|
    ensures StripLeft(s[i..e]) == s[Lead(s, i, e)..e]
    decreases e - i
  {
    if i < e && IsSpace(s[i]) {
      assert s[i..e][0] == s[i] && s[i..e][1..] == s[i + 1..e];
      StripLeftAt(s, i + 1, e);
    }
  }

  /** Dropping trailing white space from s[l..e] leaves s[l..Trail(s, l, e)]. */
  lemma {:induction false} StripRightAt(s: string, l: nat, e: nat)
    requires l <= e <= |s|
    ensures StripRight(s[l..e]) == s[l..Trail(s, l, e)]
    decreases e
  {
    if l < e && IsSpace(s[e - 1]) {
      assert s[l..e][e - 1 - l] == s[e - 1] && s[l..e][..e - 1 - l] == s[l..e - 1];
      StripRightAt(s, l, e - 1);
    }
  }

  /** The cell text is Python's `strip()` of the text between the cell's start and its pipe. */
  lemma StripCell(s: string, start: nat)
    requires start < |s| && Find(s, '|', start) != -1
    ensures Strip(s[start..Find(s, '|', start)]) == CellText(s, start)
  {
    var e := Find(s, '|', start);
    StripLeftAt(s, start, e);
    StripRightAt(s, Lead(s, start, e), e);
  }

  /** The cursor after n cells read from idx; None when one of them is not closed. */
  function RowEnd(s: string, n: nat, idx: int, wrap: bool): (r: Option<int>)
    requires -1 <= idx < |s|
    ensures r.Some? ==> -1 <= r.value < |s|
    decreases n
  {
    if n == 0 then Some(idx)
    else
      var start := Step(s, idx, wrap);
      if start.None? then None else RowEnd(s, n - 1, start.value, wrap)
  }

  /** The n cells read from cursor idx and the cursor after them; None when a cell is not closed. */
  function ReadRow(s: string, n: nat, idx: int, wrap: bool): (r: Option<(seq<string>, int)>)
    requires -1 <= idx < |s|
    ensures r.Some? <==> RowEnd(s, n, idx, wrap).Some?
    ensures r.Some? ==> |r.value.0| == n && Clean(r.value.0) && r.value.1 == RowEnd(s, n, idx, wrap).value
    decreases n
  {
    if n == 0 then Some(([], idx))
    else
      var start := Step(s, idx, wrap);
      if start.None? then None
      else
        var rest := ReadRow(s, n - 1, start.value, wrap);
        if rest.None? then None else Some(([CellText(s, start.value)] + rest.value.0, rest.value.1))
  }

  /** A walk that stops within f steps and reads a whole row stops within the steps left after it. */
  lemma {:induction false} RowFuel(s: string, n: nat, idx: int, f: nat, wrap: bool)
    requires -1 <= idx < |s| && Halts(s, idx, f, wrap) && RowEnd(s, n, idx, wrap).Some?
    ensures f > n && Halts(s, RowEnd(s, n, idx, wrap).value, f - n, wrap)
    decreases n
  {
    if n > 0 {
      RowFuel(s, n - 1, Step(s, idx, wrap).value, f - 1, wrap);
    }
  }

  /** Conversely, the steps of a row add to those of the walk after it. */
  lemma {:induction false} RowHalts(s: string, n: nat, idx: int, k: nat, wrap: bool)
    requires -1 <= idx < |s| && RowEnd(s, n, idx, wrap).Some?
    requires Halts(s, RowEnd(s, n, idx, wrap).value, k, wrap)
    ensures Halts(s, idx, k + n, wrap)
    decreases n
  {
    if n > 0 {
      RowHalts(s, n - 1, Step(s, idx, wrap).value, k, wrap);
    }
  }

  /**
   * The rows from cursor idx on: complete rows only, up to the first cell
   * that no pipe closes. The fuel f only bounds the recursion.
   */
  function ReadRows(s: string, n: nat, idx: int, f: nat, wrap: bool): (rows: seq<seq<string>>)
    requires -1 <= idx < |s| && Halts(s, idx, f, wrap)
    ensures WellShaped(rows, n)
    decreases f
  {
    var row := ReadRow(s, n, idx, wrap);
    if row.None? then []
    else
      RowFuel(s, n, idx, f, wrap);
      var start := Step(s, row.value.1, wrap);
      if start.None? then [row.value.0]
      else [row.value.0] + ReadRows(s, n, start.value, f - n - 1, wrap)
  }

  /** The rows of table reply s with n columns, as `select` decodes them. */
  function Decode(s: string, n: nat): (rows: seq<seq<string>>)
    requires Decodable(s, n)
    ensures WellShaped(rows, n)
  {
    ReadRows(s, n, SkipHeader(s, n), Bound(s), true)
  }

  /** The decoder with the -1 of the first `find` checked: it stops where no pipe follows. */
  function DecodeChecked(s: string, n: nat): (rows: seq<seq<string>>)
    ensures WellShaped(rows, n)
  {
    CheckedHalts(s, SkipHeader(s, n));
    ReadRows(s, n, SkipHeader(s, n), Bound(s), false)
  }

  // ---------------------------------------------------------------------------
  // When the decoder stops

  /**
   * The walk from idx up to where it stops (true) or wraps to the front
   * (false), with its number of steps.
   */
  function Run(s: string, idx: int, wrap: bool): (r: (nat, bool))
    requires -1 <= idx < |s|
    ensures 1 <= r.0 <= |s| - idx
    ensures !r.1 ==> wrap && 0 < |s|
    decreases |s| - idx
  {
    match Step(s, idx, wrap)
    case None => (1, true)
    case Some(y) =>
      if y == 0 then (1, false)
      else
        var r := Run(s, y, wrap);
        (r.0 + 1, r.1)
  }

  /** A walk that stops before wrapping stops exactly after its run. */
  lemma {:induction false} RunStops(s: string, idx: int, k: nat, wrap: bool)
    requires -1 <= idx < |s| && Run(s, idx, wrap).1
    ensures Halts(s, idx, k, wrap) <==> k >= Run(s, idx, wrap).0
    decreases |s| - idx
  {
    match Step(s, idx, wrap)
    case None =>
    case Some(y) =>
      if k > 0 {
        RunStops(s, y, k - 1, wrap);
      }
  }

  /** A walk that wraps to the front goes on as the walk from index 0. */
  lemma {:induction false} RunWraps(s: string, idx: int, k: nat, wrap: bool)
    requires -1 <= idx < |s| && !Run(s, idx, wrap).1
    ensures Halts(s, idx, k, wrap) <==> k >= Run(s, idx, wrap).0 && Halts(s, 0, k - Run(s, idx, wrap).0, wrap)
    decreases |s| - idx
  {
    var y := Step(s, idx, wrap).value;
    if y != 0 && k > 0 {
      RunWraps(s, y, k - 1, wrap);
    }
  }

  /** When the walk from index 0 wraps back to index 0, it never stops. */
  lemma {:induction false} CycleNeverHalts(s: string, k: nat)
    requires 0 < |s| && !Run(s, 0, true).1
    ensures !Halts(s, 0, k, true)
    decreases k
  {
    var c := Run(s, 0, true).0;
    RunWraps(s, 0, k, true);
    if k >= c {
      CycleNeverHalts(s, k - c);
    }
  }

  /** A walk that stops at all stops within Bound(s) steps. */
  lemma HaltsWithinBound(s: string, idx: int, k: nat, wrap: bool)
    requires -1 <= idx < |s| && Halts(s, idx, k, wrap)
    ensures Halts(s, idx, Bound(s), wrap)
  {
    var r := Run(s, idx, wrap);
    if r.1 {
      RunStops(s, idx, k, wrap);
      RunStops(s, idx, Bound(s), wrap);
    } else {
      RunWraps(s, idx, k, wrap);
      RunWraps(s, idx, Bound(s), wrap);
      if !Run(s, 0, wrap).1 {
        CycleNeverHalts(s, k - r.0);
        assert false;
      }
      RunStops(s, 0, k - r.0, wrap);
      RunStops(s, 0, Bound(s) - r.0, wrap);
    }
  }

  /** The checked walk never wraps, so it always stops. */
  lemma CheckedHalts(s: string, idx: int)
    requires -1 <= idx < |s|
    ensures Halts(s, idx, Bound(s), false)
  {
    RunStops(s, idx, Bound(s), false);
  }

  /**
   * The decoder ends exactly on the decodable replies: on any other reply
   * the cursor never meets an unclosed cell, however many steps it takes.
   */
  lemma LoopsForever(s: string, n: nat, k: nat)
    requires !Decodable(s, n)
    ensures !Halts(s, SkipHeader(s, n), k, true)
  {
    if Halts(s, SkipHeader(s, n), k, true) {
      HaltsWithinBound(s, SkipHeader(s, n), k, true);
      assert false;
    }
  }

  /** A lone pipe: the decoder ends for one column and loops for none. */
  lemma BarePipe()
    ensures Decodable("|", 1) && Decode("|", 1) == []
    ensures !Decodable("|", 0)
  {
    var s := "|";
    assert Find(s, '|', 1) == -1 && Find(s, '|', 0) == 0;
    assert SkipHeader(s, 1) == -1 && Step(s, -1, true).None?;
    assert Step(s, 0, true) == Some(0) && Run(s, 0, true) == (1, false);
    CycleNeverHalts(s, Bound(s));
  }

  // ---------------------------------------------------------------------------
  // The table shape the decoder reads

  /** One cell as a table line shows it: padded with a space on each side and closed by a pipe. */
  function Seg(c: string): string
  {
    " " + c + " |"
  }

  function Segs(cells: seq<string>): string
  {
    if cells == [] then "" else Seg(cells[0]) + Segs(cells[1..])
  }

  /** A table line: an opening pipe, the cells, a newline. */
  function Line(cells: seq<string>): string
  {
    "|" + Segs(cells) + "\n"
  }

  function Lines(rows: seq<seq<string>>): string
  {
    if rows == [] then "" else Line(rows[0]) + Lines(rows[1..])
  }

  /** A table reply: the header line, then one line per row. */
  function Encode(header: seq<string>, rows: seq<seq<string>>): string
  {
    Line(header) + Lines(rows)
  }

  predicate PipeFree(cells: seq<string>)
  {
    forall c :: c in cells ==> '|' !in c
  }

  lemma {:induction false} SegsAppend(a: seq<string>, b: seq<string>)
    ensures Segs(a + b) == Segs(a) + Segs(b)
    decreases |a|
  {
    if a == [] {
      assert a + b == b;
    } else {
      assert (a + b)[0] == a[0] && (a + b)[1..] == a[1..] + b;
      SegsAppend(a[1..], b);
      assert Seg(a[0]) + (Segs(a[1..]) + Segs(b)) == (Seg(a[0]) + Segs(a[1..])) + Segs(b);
    }
  }

  /**
   * A segment for cell c at index a: its pipe is the first at or after a
   * (and after a + 1), and the text up to it strips to c.
   */
  lemma SegAt(s: string, a: nat, c: string)
    requires a + |c| + 3 <= |s| && s[a..a + |c| + 3] == Seg(c) && '|' !in c
    ensures Find(s, '|', a) == a + |c| + 2 && Find(s, '|', a + 1) == a + |c| + 2
    ensures IsStripped(c) ==> CellText(s, a) == c
  {
    var e := a + |c| + 2;
    SegParts(c);
    assert s[a..e] == Seg(c)[..|c| + 2];
    assert s[e] == Seg(c)[|c| + 2];
    PipeFreeTo(s, a, e);
    if IsStripped(c) {
      StripPadded(c);
      StripCell(s, a);
    }
  }

  /** A segment is the padded cell followed by its pipe. */
  lemma SegParts(c: string)
    ensures Seg(c)[..|c| + 2] == " " + c + " " && Seg(c)[|c| + 2] == '|'
  {
    assert Seg(c) == (" " + c + " ") + "|";
  }

  /** The first pipe at or after a is at e when s[a..e] holds none. */
  lemma PipeFreeTo(s: string, a: nat, e: nat)
    requires a <= e < |s| && s[e] == '|' && '|' !in s[a..e]
    ensures Find(s, '|', a) == e
  {
    forall k | a <= k < e
      ensures s[k] != '|'
    {
      assert s[k] == s[a..e][k - a];
    }
  }

  /** The first pipe at or after a is at e when none comes before it. */
  lemma FirstPipe(s: string, a: nat, e: nat)
    requires a <= e < |s| && s[e] == '|' && forall k :: a <= k < e ==> s[k] != '|'
    ensures Find(s, '|', a) == e
  {
  }

  /** A step from idx whose first pipe p is followed by another lands just past p. */
  lemma StepTo(s: string, idx: int, p: nat, wrap: bool)
    requires -1 <= idx < |s| && Find(s, '|', idx + 1) == p && Find(s, '|', p + 1) != -1
    ensures Step(s, idx, wrap) == Some(p + 1)
  {
  }

  /** A step from idx whose first pipe p is the last one stops. */
  lemma StepStops(s: string, idx: int, p: nat, wrap: bool)
    requires -1 <= idx < |s| && Find(s, '|', idx + 1) == p && Find(s, '|', p + 1) == -1
    ensures Step(s, idx, wrap).None?
  {
  }

  /** The segments of cells sit in s from index a on. */
  predicate SegsAt(s: string, a: nat, cells: seq<string>)
  {
    a + |Segs(cells)| <= |s| && s[a..a + |Segs(cells)|] == Segs(cells)
  }

  /** The first segment of cells at a, and the rest right after it. */
  lemma SegsAtSplit(s: string, a: nat, cells: seq<string>)
    requires SegsAt(s, a, cells) && cells != []
    ensures s[a..a + |cells[0]| + 3] == Seg(cells[0])
    ensures SegsAt(s, a + |cells[0]| + 3, cells[1..])
  {
    var g, r := Seg(cells[0]), Segs(cells[1..]);
    assert Segs(cells) == g + r;
    assert s[a..a + |g|] == (g + r)[..|g|] == g;
    assert s[a + |g|..a + |g| + |r|] == (g + r)[|g|..] == r;
  }

  /** The cursor after moving past k more pipes from idx, as the header loop does. */
  function Skip(s: string, idx: int, k: nat): (r: int)
    requires -1 <= idx < |s|
    ensures -1 <= r < |s|
    decreases k
  {
    if k == 0 then idx else Skip(s, Find(s, '|', idx + 1), k - 1)
  }

  /** One more pipe after k of them. */
  lemma {:induction false} SkipLast(s: string, idx: int, k: nat)
    requires -1 <= idx < |s|
    ensures Skip(s, idx, k + 1) == Find(s, '|', Skip(s, idx, k) + 1)
    decreases k
  {
    if k > 0 {
      SkipLast(s, Find(s, '|', idx + 1), k - 1);
    }
  }

  /** Skipping the header is moving past n pipes from the first one. */
  lemma {:induction false} SkipHeaderSkips(s: string, n: nat)
    ensures SkipHeader(s, n) == Skip(s, Find(s, '|', 0), n)
    decreases n
  {
    if n > 0 {
      SkipHeaderSkips(s, n - 1);
      SkipLast(s, Find(s, '|', 0), n - 1);
    }
  }

  /** Past the pipes of cells laid out from a, the cursor is on the last one. */
  lemma {:induction false} PipesSkip(s: string, a: nat, cells: seq<string>, n: nat)
    requires PipesAt(s, a, cells) && n == |cells| && 0 < a <= |s|
    ensures Skip(s, a - 1, n) == a + |Segs(cells)| - 1
    decreases n, 1
  {
    if n == 0 {
      assert Segs(cells) == "";
    } else {
      PipesSkipCons(s, a, cells, n);
    }
  }

  lemma {:induction false} PipesSkipCons(s: string, a: nat, cells: seq<string>, n: nat)
    requires 0 < n == |cells| && 0 < a && a + |cells[0]| + 2 < |s| && Find(s, '|', a) == a + |cells[0]| + 2
    requires PipesAt(s, a + |cells[0]| + 3, cells[1..])
    ensures Skip(s, a - 1, n) == a + |Segs(cells)| - 1
    decreases n, 0
  {
    PipesSkip(s, a + |cells[0]| + 3, cells[1..], n - 1);
    SegsCons(cells);
  }

  /** Skipping the header of a reply whose first line is the header's cells stops at its last pipe. */
  lemma HeaderSkip(s: string, h: seq<string>)
    requires 0 < |s| && s[0] == '|' && SegsAt(s, 1, h) && PipeFree(h)
    ensures SkipHeader(s, |h|) == |Segs(h)|
  {
    SegsPipes(s, 1, h);
    SkipHeaderSkips(s, |h|);
    PipesSkip(s, 1, h, |h|);
  }


  /** One step of a row's walk. */
  lemma RowEndStep(s: string, n: nat, idx: int, p: int, wrap: bool)
    requires 0 < n && -1 <= idx < |s| && Step(s, idx, wrap) == Some(p)
    ensures RowEnd(s, n, idx, wrap) == RowEnd(s, n - 1, p, wrap)
  {
  }

  /** The first segment at a: where its pipe is, and the rest of the segments after it. */
  lemma SegsFirst(s: string, a: nat, cells: seq<string>)
    requires SegsAt(s, a, cells) && PipeFree(cells) && cells != []
    ensures SegsAt(s, a + |cells[0]| + 3, cells[1..]) && PipeFree(cells[1..])
    ensures a + |cells[0]| + 2 < |s|
    ensures Find(s, '|', a) == a + |cells[0]| + 2 && Find(s, '|', a + 1) == a + |cells[0]| + 2
    ensures IsStripped(cells[0]) ==> CellText(s, a) == cells[0]
  {
    SegsAtSplit(s, a, cells);
    assert cells[0] in cells;
    SegAt(s, a, cells[0]);
  }

  /**
   * The cells' closing pipes as the decoder meets them from index a: the
   * first pipe at or after a cell's start closes it, and the next cell
   * starts three characters later.
   */
  ghost predicate PipesAt(s: string, a: nat, cells: seq<string>)
    decreases |cells|
  {
    cells == [] ||
    (a + |cells[0]| + 2 < |s| && Find(s, '|', a) == a + |cells[0]| + 2 && Find(s, '|', a + 1) == a + |cells[0]| + 2
     && PipesAt(s, a + |cells[0]| + 3, cells[1..]))
  }

  /** The cells as the decoder reads them from index a: their pipes, and each one's text. */
  ghost predicate CellsAt(s: string, a: nat, cells: seq<string>)
    decreases |cells|
  {
    cells == [] ||
    (a + |cells[0]| + 2 < |s| && Find(s, '|', a) == a + |cells[0]| + 2 && Find(s, '|', a + 1) == a + |cells[0]| + 2
     && CellText(s, a) == cells[0] && CellsAt(s, a + |cells[0]| + 3, cells[1..]))
  }

  /** Segments of cells free of pipes give the decoder those pipes. */
  lemma {:induction false} SegsPipes(s: string, a: nat, cells: seq<string>)
    requires SegsAt(s, a, cells) && PipeFree(cells)
    ensures PipesAt(s, a, cells)
    decreases |cells|, 1
  {
    if cells != [] {
      SegsFirst(s, a, cells);
      PipesCons(s, a, cells);
    }
  }

  lemma {:induction false} PipesCons(s: string, a: nat, cells: seq<string>)
    requires cells != [] && a + |cells[0]| + 2 < |s|
    requires Find(s, '|', a) == a + |cells[0]| + 2 && Find(s, '|', a + 1) == a + |cells[0]| + 2
    requires SegsAt(s, a + |cells[0]| + 3, cells[1..]) && PipeFree(cells[1..])
    ensures PipesAt(s, a, cells)
    decreases |cells|, 0
  {
    SegsPipes(s, a + |cells[0]| + 3, cells[1..]);
  }

  /** Clean cells' segments are cells the decoder reads. */
  lemma {:induction false} SegsCells(s: string, a: nat, cells: seq<string>)
    requires SegsAt(s, a, cells) && Clean(cells)
    ensures CellsAt(s, a, cells)
    decreases |cells|, 1
  {
    if cells != [] {
      assert cells[0] in cells;
      SegsFirst(s, a, cells);
      CellsCons(s, a, cells);
    }
  }

  lemma {:induction false} CellsCons(s: string, a: nat, cells: seq<string>)
    requires cells != [] && a + |cells[0]| + 2 < |s|
    requires Find(s, '|', a) == a + |cells[0]| + 2 && Find(s, '|', a + 1) == a + |cells[0]| + 2
    requires CellText(s, a) == cells[0]
    requires SegsAt(s, a + |cells[0]| + 3, cells[1..]) && Clean(cells[1..])
    ensures CellsAt(s, a, cells)
    decreases |cells|, 0
  {
    SegsCells(s, a + |cells[0]| + 3, cells[1..]);
  }

  /**
   * Reading the cells of one line: from a cursor whose next pipe is at
   * a - 1, where the cells start, the decoder reads exactly the cells, and
   * the next pipe after the cursor closes the last one.
   */
  lemma {:induction false} CellsRow(s: string, idx: int, a: nat, cells: seq<string>, n: nat, wrap: bool) returns (j: int)
    requires CellsAt(s, a, cells) && n == |cells|
    requires 0 < a && -1 <= idx < a - 1 && Find(s, '|', idx + 1) == a - 1
    ensures ReadRow(s, n, idx, wrap) == Some((cells, j))
    decreases n, 1
  {
    if n == 0 {
      j := idx;
    } else {
      StepTo(s, idx, a - 1, wrap);
      j := CellsRowCons(s, idx, a, cells, n, wrap);
    }
  }

  lemma {:induction false} CellsRowCons(s: string, idx: int, a: nat, cells: seq<string>, n: nat, wrap: bool) returns (j: int)
    requires 0 < n == |cells| && a + |cells[0]| + 2 < |s| && Find(s, '|', a + 1) == a + |cells[0]| + 2
    requires CellText(s, a) == cells[0] && CellsAt(s, a + |cells[0]| + 3, cells[1..])
    requires -1 <= idx < a - 1 && Step(s, idx, wrap) == Some(a)
    ensures ReadRow(s, n, idx, wrap) == Some((cells, j))
    decreases n, 0
  {
    var c, rest := cells[0], cells[1..];
    j := CellsRow(s, a, a + |cells[0]| + 3, cells[1..], n - 1, wrap);
    ReadRowCons(s, n, idx, a, wrap, c, rest, j);
    Uncons(cells);
  }

  /** One cell of a row: the text after the step, then the rest of the row. */
  lemma ReadRowCons(s: string, n: nat, idx: int, p: int, wrap: bool, c: string, rest: seq<string>, j: int)
    requires 0 < n && -1 <= idx < |s| && Step(s, idx, wrap) == Some(p)
    requires ReadRow(s, n - 1, p, wrap) == Some((rest, j)) && CellText(s, p) == c
    ensures ReadRow(s, n, idx, wrap) == Some(([c] + rest, j))
  {
  }

  lemma Uncons<T>(xs: seq<T>)
    requires xs != []
    ensures [xs[0]] + xs[1..] == xs
  {
  }

  /**
   * The cursor after the cells: the next pipe after it closes the last
   * cell.
   */
  lemma {:induction false} CellsEnd(s: string, idx: int, a: nat, cells: seq<string>, n: nat, wrap: bool) returns (j: int)
    requires PipesAt(s, a, cells) && n == |cells|
    requires 0 < a && -1 <= idx < a - 1 && Find(s, '|', idx + 1) == a - 1
    ensures -1 <= j < |s| && RowEnd(s, n, idx, wrap) == Some(j)
    ensures Find(s, '|', j + 1) == a + |Segs(cells)| - 1
    decreases n, 1
  {
    if n == 0 {
      j := idx;
      assert Segs(cells) == "";
    } else {
      StepTo(s, idx, a - 1, wrap);
      j := CellsEndCons(s, idx, a, cells, n, wrap);
    }
  }

  /** The first cell's step, then the rest of the row. */
  lemma {:induction false} CellsEndCons(s: string, idx: int, a: nat, cells: seq<string>, n: nat, wrap: bool) returns (j: int)
    requires 0 < n == |cells| && a + |cells[0]| + 2 < |s| && Find(s, '|', a + 1) == a + |cells[0]| + 2
    requires PipesAt(s, a + |cells[0]| + 3, cells[1..])
    requires -1 <= idx < a - 1 && Step(s, idx, wrap) == Some(a)
    ensures -1 <= j < |s| && RowEnd(s, n, idx, wrap) == Some(j)
    ensures Find(s, '|', j + 1) == a + |Segs(cells)| - 1
    decreases n, 0
  {
    j := CellsEnd(s, a, a + |cells[0]| + 3, cells[1..], n - 1, wrap);
    SegsCons(cells);
    RowEndStep(s, n, idx, a, wrap);
  }

  lemma SegsCons(cells: seq<string>)
    requires cells != []
    ensures |Segs(cells)| == |cells[0]| + 3 + |Segs(cells[1..])|
  {
  }

  /** The lines of rows sit in s from index a to its end. */
  predicate LinesAt(s: string, a: nat, rows: seq<seq<string>>)
  {
    a + |Lines(rows)| == |s| && s[a..] == Lines(rows)
  }

  /** The first line of rows at a: its pipe, its segments, its newline, then the other lines. */
  lemma LinesAtSplit(s: string, a: nat, rows: seq<seq<string>>)
    requires LinesAt(s, a, rows) && rows != []
    ensures a + |Segs(rows[0])| + 2 <= |s|
    ensures s[a] == '|' && SegsAt(s, a + 1, rows[0]) && s[a + |Segs(rows[0])| + 1] == '\n'
    ensures LinesAt(s, a + |Segs(rows[0])| + 2, rows[1..])
  {
    var g, r := Segs(rows[0]), Lines(rows[1..]);
    assert Lines(rows) == "|" + g + "\n" + r;
    assert s[a] == Lines(rows)[0];
    assert s[a + 1..a + 1 + |g|] == Lines(rows)[1..1 + |g|] == g;
    assert s[a + |g| + 1] == Lines(rows)[|g| + 1];
    assert s[a + |g| + 2..] == Lines(rows)[|g| + 2..] == r;
  }

  /** A table body of rows is read back whole, whatever fuel bounds the reading. */
  lemma {:induction false} ReadLines(s: string, n: nat, idx: int, a: nat, rows: seq<seq<string>>, f: nat, wrap: bool)
    requires LinesAt(s, a, rows) && rows != [] && WellShaped(rows, n)
    requires -1 <= idx < a && Find(s, '|', idx + 1) == a
    ensures Halts(s, idx, RowsFuel(n, |rows|), wrap)
    ensures Halts(s, idx, f, wrap) ==> ReadRows(s, n, idx, f, wrap) == rows
    decreases |rows|, 2
  {
    if |rows| == 1 {
      var r0 := rows[0];
      WellShapedTail(rows, n);
      LinesAtSplit(s, a, rows);
      var j := RowAt(s, n, idx, a, r0, wrap);
      var e := a + |Segs(r0)|;
      FindNone(s, e + 1);
      StepStops(s, j, e, wrap);
      LastRow(s, n, idx, j, r0, f, wrap);
      RowsFuelSucc(n, 0);
      assert RowsFuel(n, |rows|) == n + 1;
      assert rows == [r0];
    } else {
      ReadLinesCons(s, n, idx, a, rows, f, wrap);
    }
  }

  /** The first row and the other rows of a well-shaped table. */
  lemma WellShapedTail(rows: seq<seq<string>>, n: nat)
    requires WellShaped(rows, n) && rows != []
    ensures |rows[0]| == n && Clean(rows[0]) && WellShaped(rows[1..], n)
  {
    assert rows[0] in rows;
    forall r | r in rows[1..]
      ensures |r| == n && Clean(r)
    {
      assert r in rows;
    }
  }

  /** No pipe at or after i when s ends with one newline there. */
  lemma FindNone(s: string, i: nat)
    requires i + 1 == |s| && s[i] == '\n'
    ensures Find(s, '|', i) == -1
  {
  }

  /** A body of several rows: the first row read, then the others from the next line's pipe. */
  lemma {:induction false} ReadLinesCons(s: string, n: nat, idx: int, a: nat, rows: seq<seq<string>>, f: nat, wrap: bool)
    requires LinesAt(s, a, rows) && |rows| > 1 && WellShaped(rows, n)
    requires -1 <= idx < a && Find(s, '|', idx + 1) == a
    ensures Halts(s, idx, RowsFuel(n, |rows|), wrap)
    ensures Halts(s, idx, f, wrap) ==> ReadRows(s, n, idx, f, wrap) == rows
    decreases |rows|, 1
  {
    var j, e := FirstLine(s, n, idx, a, rows, wrap);
    ReadLinesNext(s, n, idx, e, rows[0], rows[1..], f, wrap, j, |rows|);
    Uncons(rows);
  }

  /** The first line of several: its row read up to the cursor j, the next line starting past its newline at e + 1. */
  lemma FirstLine(s: string, n: nat, idx: int, a: nat, rows: seq<seq<string>>, wrap: bool) returns (j: int, e: nat)
    requires LinesAt(s, a, rows) && |rows| > 1 && WellShaped(rows, n)
    requires -1 <= idx < a && Find(s, '|', idx + 1) == a
    ensures WellShaped(rows[1..], n)
    ensures -1 <= idx < e && e + 2 <= |s| && s[e + 1] == '\n' && LinesAt(s, e + 2, rows[1..])
    ensures ReadRow(s, n, idx, wrap) == Some((rows[0], j)) && RowEnd(s, n, idx, wrap) == Some(j)
    ensures -1 <= j < |s| && Find(s, '|', j + 1) == e
  {
    e := a + |Segs(rows[0])|;
    WellShapedTail(rows, n);
    LinesAtSplit(s, a, rows);
    j := RowAt(s, n, idx, a, rows[0], wrap);
  }

  lemma {:induction false} ReadLinesNext(s: string, n: nat, idx: int, e: nat, r: seq<string>, rest: seq<seq<string>>, f: nat, wrap: bool, j: int, m: nat)
    requires rest != [] && WellShaped(rest, n) && m == |rest| + 1
    requires -1 <= idx < e && e + 2 <= |s| && s[e + 1] == '\n' && LinesAt(s, e + 2, rest)
    requires ReadRow(s, n, idx, wrap) == Some((r, j)) && RowEnd(s, n, idx, wrap) == Some(j)
    requires -1 <= j < |s| && Find(s, '|', j + 1) == e
    ensures Halts(s, idx, RowsFuel(n, m), wrap)
    ensures Halts(s, idx, f, wrap) ==> ReadRows(s, n, idx, f, wrap) == [r] + rest
    decreases m, 0
  {
    LinesAtFirst(s, e + 2, rest);
    NextLinePipe(s, e + 1);
    StepTo(s, j, e, wrap);
    var f' := if f > n + 1 then f - n - 1 else 0;
    ReadLines(s, n, e + 1, e + 2, rest, f', wrap);
    MoreRows(s, n, idx, j, e + 1, r, rest, f, wrap);
  }

  /** A line of rows opens with a pipe. */
  lemma LinesAtFirst(s: string, a: nat, rows: seq<seq<string>>)
    requires LinesAt(s, a, rows) && rows != []
    ensures a < |s| && s[a] == '|'
  {
    assert s[a] == Lines(rows)[0];
  }

  /** The pipe that opens the line after a newline. */
  lemma NextLinePipe(s: string, i: nat)
    requires i + 1 < |s| && s[i] == '\n' && s[i + 1] == '|'
    ensures Find(s, '|', i) == i + 1
  {
  }

  /** The last row: the step after it finds no closed cell. */
  lemma LastRow(s: string, n: nat, idx: int, j: int, r: seq<string>, f: nat, wrap: bool)
    requires -1 <= idx < |s| && -1 <= j < |s|
    requires ReadRow(s, n, idx, wrap) == Some((r, j)) && RowEnd(s, n, idx, wrap) == Some(j)
    requires Step(s, j, wrap).None?
    ensures Halts(s, idx, n + 1, wrap)
    ensures Halts(s, idx, f, wrap) ==> ReadRows(s, n, idx, f, wrap) == [r]
  {
    RowHalts(s, n, idx, 1, wrap);
  }

  /** A row, then a step to p, from which the rest of the rows are read. */
  lemma MoreRows(s: string, n: nat, idx: int, j: int, p: int, r: seq<string>, rest: seq<seq<string>>, f: nat, wrap: bool)
    requires -1 <= idx < |s| && -1 <= j < |s|
    requires ReadRow(s, n, idx, wrap) == Some((r, j)) && RowEnd(s, n, idx, wrap) == Some(j)
    requires Step(s, j, wrap) == Some(p) && Halts(s, p, RowsFuel(n, |rest|), wrap)
    requires var f' := if f > n + 1 then f - n - 1 else 0;
      Halts(s, p, f', wrap) ==> ReadRows(s, n, p, f', wrap) == rest
    ensures Halts(s, idx, RowsFuel(n, |rest| + 1), wrap)
    ensures Halts(s, idx, f, wrap) ==> ReadRows(s, n, idx, f, wrap) == [r] + rest
  {
    MoreRowsHalt(s, n, idx, j, p, |rest|, wrap);
    if Halts(s, idx, f, wrap) {
      var f' := MoreRowsFuel(s, n, idx, j, p, f, wrap);
      ReadRowsStep(s, n, idx, j, p, r, f, wrap);
    }
  }

  /** Steps of one row, one step between rows, then m rows. */
  lemma MoreRowsHalt(s: string, n: nat, idx: int, j: int, p: int, m: nat, wrap: bool)
    requires -1 <= idx < |s| && -1 <= j < |s| && RowEnd(s, n, idx, wrap) == Some(j)
    requires Step(s, j, wrap) == Some(p) && Halts(s, p, RowsFuel(n, m), wrap)
    ensures Halts(s, idx, RowsFuel(n, m + 1), wrap)
  {
    assert Halts(s, j, RowsFuel(n, m) + 1, wrap);
    RowHalts(s, n, idx, RowsFuel(n, m) + 1, wrap);
    RowsFuelSucc(n, m);
  }

  /** Steps enough to read m rows of n cells: n steps per row and one between rows. */
  function RowsFuel(n: nat, m: nat): nat
  {
    (n + 1) * m
  }

  lemma RowsFuelSucc(n: nat, m: nat)
    ensures RowsFuel(n, 0) == 0
    ensures RowsFuel(n, m + 1) == RowsFuel(n, m) + 1 + n
  {
  }

  /** The fuel left after a row and the step past it. */
  lemma MoreRowsFuel(s: string, n: nat, idx: int, j: int, p: int, f: nat, wrap: bool) returns (f': nat)
    requires -1 <= idx < |s| && -1 <= j < |s| && RowEnd(s, n, idx, wrap) == Some(j)
    requires Step(s, j, wrap) == Some(p) && Halts(s, idx, f, wrap)
    ensures f > n + 1 && f' == f - n - 1 && Halts(s, p, f', wrap)
  {
    RowFuel(s, n, idx, f, wrap);
    f' := f - n - 1;
  }

  /** ReadRows unfolded once over a row that a step follows. */
  lemma ReadRowsStep(s: string, n: nat, idx: int, j: int, p: int, r: seq<string>, f: nat, wrap: bool)
    requires -1 <= idx < |s| && -1 <= j < |s|
    requires ReadRow(s, n, idx, wrap) == Some((r, j))
    requires Step(s, j, wrap) == Some(p) && Halts(s, idx, f, wrap) && f > n + 1 && Halts(s, p, f - n - 1, wrap)
    ensures ReadRows(s, n, idx, f, wrap) == [r] + ReadRows(s, n, p, f - n - 1, wrap)
  {
  }

  /** One line of a table reply: the decoder reads its cells and stops at the pipe that closes the last one. */
  lemma RowAt(s: string, n: nat, idx: int, a: nat, r: seq<string>, wrap: bool) returns (j: int)
    requires a + 1 <= |s| && SegsAt(s, a + 1, r) && Clean(r) && |r| == n
    requires -1 <= idx < a && Find(s, '|', idx + 1) == a
    ensures ReadRow(s, n, idx, wrap) == Some((r, j)) && RowEnd(s, n, idx, wrap) == Some(j)
    ensures -1 <= j < |s| && Find(s, '|', j + 1) == a + |Segs(r)|
  {
    SegsCells(s, a + 1, r);
    SegsPipes(s, a + 1, r);
    j := CellsRow(s, idx, a + 1, r, n, wrap);
    var j' := CellsEnd(s, idx, a + 1, r, n, wrap);
  }


  /** A table reply: its header line's pipe and segments, its newline, then its lines. */
  lemma EncodeParts(header: seq<string>, rows: seq<seq<string>>)
    ensures |Encode(header, rows)| == |Segs(header)| + 2 + |Lines(rows)|
    ensures Encode(header, rows)[0] == '|' && SegsAt(Encode(header, rows), 1, header)
    ensures Encode(header, rows)[|Segs(header)| + 1] == '\n'
    ensures LinesAt(Encode(header, rows), |Segs(header)| + 2, rows)
  {
    var s, g := Encode(header, rows), Segs(header);
    assert s == "|" + g + "\n" + Lines(rows);
    assert s[1..1 + |g|] == g;
    assert s[|g| + 2..] == Lines(rows);
  }

  /**
   * Decoding a table reply gives back its rows, as written and checked
   * alike, when there is at least one row and every cell is stripped and
   * free of pipes.
   */
  lemma DecodeEncode(header: seq<string>, rows: seq<seq<string>>)
    requires PipeFree(header) && rows != [] && WellShaped(rows, |header|)
    ensures Decodable(Encode(header, rows), |header|)
    ensures Decode(Encode(header, rows), |header|) == rows
    ensures DecodeChecked(Encode(header, rows), |header|) == rows
  {
    var s := Encode(header, rows);
    var n := |header|;
    EncodeParts(header, rows);
    HeaderSkip(s, header);
    var idx := |Segs(header)|;
    LinesAtSplit(s, idx + 2, rows);
    FirstPipe(s, idx + 1, idx + 2);
    ReadLines(s, n, idx, idx + 2, rows, Bound(s), true);
    ReadLines(s, n, idx, idx + 2, rows, Bound(s), false);
    HaltsWithinBound(s, idx, RowsFuel(n, |rows|), true);
    CheckedHalts(s, idx);
  }

  /**
   * A table reply without rows: as written, the cursor wraps to the front
   * and the decoder returns one row, an empty first cell and the header's
   * other cells.
   */
  lemma EmptyTableAsWritten(header: seq<string>)
    requires 0 < |header| && Clean(header)
    ensures Decodable(Encode(header, []), |header|)
    ensures Decode(Encode(header, []), |header|) == [[""] + header[1..]]
  {
    var s := Encode(header, []);
    var n := |header|;
    var idx := |Segs(header)|;
    var j := EmptyTableRow(header);
    LastRow(s, n, idx, j, [""] + header[1..], Bound(s), true);
    HaltsWithinBound(s, idx, n + 1, true);
  }

  /**
   * The row read from the end of the header of a table reply without rows:
   * the cursor wraps to index 0, which opens an empty cell, and the other
   * cells are those of the header.
   */
  lemma EmptyTableRow(header: seq<string>) returns (j: int)
    requires 0 < |header| && Clean(header)
    ensures |Encode(header, [])| == |Segs(header)| + 2
    ensures SkipHeader(Encode(header, []), |header|) == |Segs(header)|
    ensures -1 <= j < |Encode(header, [])|
    ensures ReadRow(Encode(header, []), |header|, |Segs(header)|, true) == Some(([""] + header[1..], j))
    ensures Step(Encode(header, []), j, true).None?
  {
    var s := Encode(header, []);
    var n := |header|;
    var idx := |Segs(header)|;
    var j1;
    j1, j := HeaderRest(header);
    FindNone(s, idx + 1);
    WrapStep(s, idx);
    EmptyCell(s);
    ReadRowCons(s, n, idx, 0, true, "", header[1..], j1);
    StepStops(s, j, idx, true);
  }

  /** In a table reply without rows, the cells read from the first pipe on are the header's but the first. */
  lemma HeaderRest(header: seq<string>) returns (j1: int, j: int)
    requires 0 < |header| && Clean(header)
    ensures |Encode(header, [])| == |Segs(header)| + 2
    ensures Encode(header, [])[0] == '|' && Encode(header, [])[|Segs(header)| + 1] == '\n'
    ensures SkipHeader(Encode(header, []), |header|) == |Segs(header)|
    ensures ReadRow(Encode(header, []), |header| - 1, 0, true) == Some((header[1..], j1))
    ensures -1 <= j < |Encode(header, [])| && Find(Encode(header, []), '|', j + 1) == |Segs(header)|
    ensures RowEnd(Encode(header, []), |header| - 1, 0, true) == Some(j)
  {
    var s := Encode(header, []);
    var n := |header|;
    var c, rest := header[0], header[1..];
    HeaderCells(header);
    j1 := CellsRow(s, 0, |c| + 4, rest, n - 1, true);
    j := CellsEnd(s, 0, |c| + 4, rest, n - 1, true);
    SegsCons(header);
  }

  /** The cells of the header of a table reply without rows, from the second one on. */
  lemma HeaderCells(header: seq<string>)
    requires 0 < |header| && Clean(header)
    ensures |Encode(header, [])| == |Segs(header)| + 2
    ensures Encode(header, [])[0] == '|' && Encode(header, [])[|Segs(header)| + 1] == '\n'
    ensures SkipHeader(Encode(header, []), |header|) == |Segs(header)|
    ensures Find(Encode(header, []), '|', 1) == |header[0]| + 3
    ensures CellsAt(Encode(header, []), |header[0]| + 4, header[1..])
    ensures PipesAt(Encode(header, []), |header[0]| + 4, header[1..])
  {
    var s := Encode(header, []);
    var c, rest := header[0], header[1..];
    EncodeParts(header, []);
    CleanSplit(header);
    HeaderSkip(s, header);
    SegsFirst(s, 1, header);
    SegsCells(s, |c| + 4, rest);
    SegsPipes(s, |c| + 4, rest);
  }

  /** Clean cells are free of pipes, and so are the cells after the first. */
  lemma CleanSplit(cells: seq<string>)
    requires Clean(cells) && cells != []
    ensures PipeFree(cells) && Clean(cells[1..])
  {
    forall c | c in cells[1..]
      ensures IsStripped(c) && '|' !in c
    {
      assert c in cells;
    }
  }

  /** A reply opening with a pipe has an empty cell at index 0. */
  lemma EmptyCell(s: string)
    requires 0 < |s| && s[0] == '|'
    ensures Find(s, '|', 0) == 0 && CellText(s, 0) == ""
  {
  }

  /** The checked decoder gives no row for a table reply without rows. */
  lemma EmptyTableChecked(header: seq<string>)
    requires 0 < |header| && PipeFree(header)
    ensures DecodeChecked(Encode(header, []), |header|) == []
  {
    var s := Encode(header, []);
    var n := |header|;
    EncodeParts(header, []);
    HeaderSkip(s, header);
    assert Step(s, |Segs(header)|, false).None?;
  }

  /** The rows read after a partial row: Extend(row, r) puts row in front of the rest of the row r. */
  function Extend(row: seq<string>, r: Option<(seq<string>, int)>): Option<(seq<string>, int)>
  {
    match r
    case None => None
    case Some((rest, j)) => Some((row + rest, j))
  }

  /**
   * The decoder of `select`: skip the header by moving past n+1 pipes, then
   * read n cells per row, each the stripped text between a pipe and the next
   * one. It stops at the first cell no pipe closes and returns the complete
   * rows gathered so far.
   */
  method DecodeTable(s: string, n: nat) returns (rows: seq<seq<string>>)
    requires Decodable(s, n)
    ensures rows == Decode(s, n)
  {
    var idx := PassHeader(s, n);
    ghost var fuel := Bound(s);
    rows := [];
    NoRowsYet(ReadRows(s, n, idx, fuel, true));
    while true
      invariant -1 <= idx < |s| && Halts(s, idx, fuel, true)
      invariant rows + ReadRows(s, n, idx, fuel, true) == Decode(s, n)
      decreases fuel
    {
      var row, next, complete, more;
      ghost var f';
      row, next, complete, more, f' := NextRow(s, n, idx, fuel);
      if !complete {
        NoMoreRows(rows, ReadRows(s, n, idx, fuel, true));
        return;
      }
      if !more {
        rows := rows + [row];
        return;
      }
      RowsSoFar(rows, row, ReadRows(s, n, next, f', true));
      rows := rows + [row];
      fuel := f';
      idx := next;
    }
  }

  /**
   * One round of the decoder's second loop: read the row at the cursor, then step to the
   * next row's start. Without a complete row nothing is left; after the last row the
   * search for the next pipe fails.
   */
  method NextRow(s: string, n: nat, idx: int, ghost fuel: nat)
      returns (row: seq<string>, next: int, complete: bool, more: bool, ghost fuel': nat)
    requires -1 <= idx < |s| && Halts(s, idx, fuel, true)
    ensures !complete ==> ReadRows(s, n, idx, fuel, true) == []
    ensures complete && !more ==> ReadRows(s, n, idx, fuel, true) == [row]
    ensures complete && more ==> -1 <= next < |s| && fuel' < fuel && Halts(s, next, fuel', true)
    ensures complete && more ==> ReadRows(s, n, idx, fuel, true) == [row] + ReadRows(s, n, next, fuel', true)
  {
    var j;
    row, j, complete := ReadCells(s, n, idx);
    more := false;
    next := idx;
    fuel' := fuel;
    if !complete {
      NothingLeft(s, n, idx, fuel);
      return;
    }
    assert ReadRow(s, n, idx, true) == Some((row, j));
    assert RowEnd(s, n, idx, true) == Some(j) && -1 <= j < |s|;
    var start := Find(s, '|', j + 1) + 1;
    var end := Find(s, '|', start);
    WrapStep(s, j);
    if end == -1 {
      assert Step(s, j, true).None?;
      LastRowRead(s, n, idx, j, row, fuel);
      return;
    }
    assert Step(s, j, true) == Some(start);
    fuel' := MoreRowsFuel(s, n, idx, j, start, fuel, true);
    ReadRowsStep(s, n, idx, j, start, row, fuel, true);
    more := true;
    next := start;
  }

  /** The decoder's first loop: the cursor moves past the first pipe and n more. */
  method PassHeader(s: string, n: nat) returns (idx: int)
    ensures idx == SkipHeader(s, n)
  {
    idx := Find(s, '|', 0);
    for i := 0 to n
      invariant idx == SkipHeader(s, i)
    {
      idx := Find(s, '|', idx + 1);
    }
  }

  /** The step as the decoder takes it: from the pipe after idx, or from index 0 when there is none. */
  lemma WrapStep(s: string, idx: int)
    requires -1 <= idx < |s|
    ensures var start := Find(s, '|', idx + 1) + 1;
      Step(s, idx, true) == if Find(s, '|', start) == -1 then None else Some(start)
  {
  }

  lemma NoRowsYet(rest: seq<seq<string>>)
    ensures [] + rest == rest
  {
  }

  /** A row that is not complete ends the rows read. */
  lemma NothingLeft(s: string, n: nat, idx: int, f: nat)
    requires -1 <= idx < |s| && Halts(s, idx, f, true) && ReadRow(s, n, idx, true).None?
    ensures ReadRows(s, n, idx, f, true) == []
  {
  }

  lemma NoMoreRows(rows: seq<seq<string>>, rest: seq<seq<string>>)
    requires rest == []
    ensures rows + rest == rows
  {
  }

  /** A complete row after which no cell is closed is the last one read. */
  lemma LastRowRead(s: string, n: nat, idx0: int, idx: int, row: seq<string>, f: nat)
    requires -1 <= idx0 < |s| && -1 <= idx < |s| && Halts(s, idx0, f, true)
    requires ReadRow(s, n, idx0, true) == Some((row, idx)) && Step(s, idx, true).None?
    ensures ReadRows(s, n, idx0, f, true) == [row]
  {
    assert ReadRows(s, n, idx0, f, true) == [row];
  }

  lemma RowsSoFar(done: seq<seq<string>>, row: seq<string>, rest: seq<seq<string>>)
    ensures done + ([row] + rest) == (done + [row]) + rest
  {
  }

  /**
   * The inner loop of the decoder: n cells from cursor idx0, or a report
   * that a cell was not closed.
   */
  method ReadCells(s: string, n: nat, idx0: int) returns (row: seq<string>, idx: int, complete: bool)
    requires -1 <= idx0 < |s|
    ensures complete <==> ReadRow(s, n, idx0, true).Some?
    ensures complete ==> ReadRow(s, n, idx0, true) == Some((row, idx))
  {
    row, idx := [], idx0;
    ExtendNil(ReadRow(s, n, idx0, true));
    for i := 0 to n
      invariant -1 <= idx < |s|
      invariant ReadRow(s, n, idx0, true) == Extend(row, ReadRow(s, n - i, idx, true))
    {
      var start := Find(s, '|', idx + 1) + 1;
      var end := Find(s, '|', start);
      if end == -1 {
        assert Step(s, idx, true).None?;
        return row, idx, false;
      }
      assert Step(s, idx, true) == Some(start);
      var cell := Strip(s[start..end]);
      StripCell(s, start);
      ExtendStep(s, n - i, idx, start, row);
      row := row + [cell];
      idx := start;
    }
    ExtendDone(row, idx);
    complete := true;
  }

  lemma ExtendNil(r: Option<(seq<string>, int)>)
    ensures Extend([], r) == r
  {
    match r
    case None =>
    case Some((rest, j)) =>
      assert [] + rest == rest;
  }

  lemma ExtendDone(row: seq<string>, idx: int)
    ensures Extend(row, Some(([], idx))) == Some((row, idx))
  {
    assert row + [] == row;
  }

  /** One more cell read: it moves from the rest of the row to the row so far. */
  lemma ExtendStep(s: string, m: nat, idx: int, p: int, row: seq<string>)
    requires 0 < m && -1 <= idx < |s| && Step(s, idx, true) == Some(p)
    ensures Extend(row, ReadRow(s, m, idx, true)) == Extend(row + [CellText(s, p)], ReadRow(s, m - 1, p, true))
  {
    var rest := ReadRow(s, m - 1, p, true);
    if rest.Some? {
      assert row + ([CellText(s, p)] + rest.value.0) == (row + [CellText(s, p)]) + rest.value.0;
    }
  }

  /** `real_col_num`: the table's column count for `['*']`, else the number of columns. */
  function RealColNum(tables: seq<string>, cols: seq<string>): (r: Result<nat, PyError>)
    ensures !(|cols| == 1 && cols[0] == "*") ==> r == Ok(|cols|)
    ensures |cols| == 1 && cols[0] == "*" && Join(",", tables) !in NumOfCols ==> r == Err(KeyError)
  {
    if |cols| == 1 && cols[0] == "*" then
      var t := Join(",", tables);
      if t in NumOfCols then Ok(NumOfCols[t]) else Err(KeyError)
    else Ok(|cols|)
  }

  /** What `select` returns: ABORT, None, or the decoded rows. */
  datatype SelectResult = Aborted | NoResult | Rows(rows: seq<seq<string>>)

  /**
   * A reply `select` returns on for column count n: an abort, an error or an
   * empty reply, a column count that raised, or a table the decoder finishes
   * (on every other reply the decoder loops forever, see `LoopsForever`).
   */
  predicate DecodableReply(reply: string, n: Result<nat, PyError>)
  {
    StartsWith(reply, "abort") || StartsWith(reply, "Error") || reply == "" || n.Err? || Decodable(reply, n.value)
  }

  /**
   * What `select` returns once its statement is sent, for the reply it gets
   * and the column list after wrapping: ABORT for an abort reply, None for an
   * error or empty reply, the decoded rows otherwise.
   */
  function SelectReply(tables: seq<string>, cols: seq<string>, reply: string): (r: Result<SelectResult, PyError>)
    requires DecodableReply(reply, RealColNum(tables, cols))
    ensures r == Ok(Aborted) <==> StartsWith(reply, "abort")
    ensures r.Ok? && r.value.Rows? ==> RealColNum(tables, cols).Ok? && WellShaped(r.value.rows, RealColNum(tables, cols).value)
  {
    ReplyRows(RealColNum(tables, cols), reply)
  }

  /** The classification of `select`'s reply once the column count n is known (or raised). */
  function ReplyRows(n: Result<nat, PyError>, reply: string): (r: Result<SelectResult, PyError>)
    requires DecodableReply(reply, n)
    ensures r == Ok(Aborted) <==> StartsWith(reply, "abort")
    ensures r.Ok? && r.value.Rows? ==> n.Ok? && WellShaped(r.value.rows, n.value)
  {
    if StartsWith(reply, "abort") then Ok(Aborted)
    else if StartsWith(reply, "Error") || reply == "" then Ok(NoResult)
    else if n.Err? then Err(n.error) else Ok(Rows(Decode(reply, n.value)))
  }

  /**
   * `select`: build the statement (which may raise before anything is sent),
   * send it, and classify `reply`, the server's answer to it.
   */
  method Select(tables: seq<string>, col: ColArg, where: Option<seq<Term>>, orderBy: string,
                asc: bool, reply: string) returns (sent: Option<string>, res: Result<SelectResult, PyError>)
    requires SelectSql(tables, col, where, orderBy, asc).Ok? ==>
               DecodableReply(reply, RealColNum(tables, ColumnList(col).value))
    ensures sent.None? <==> SelectSql(tables, col, where, orderBy, asc).Err?
    ensures sent.Some? ==> sent.value == SelectSql(tables, col, where, orderBy, asc).value
    ensures sent.None? ==> res == Err(TypeError)
    ensures sent.Some? ==> res == SelectReply(tables, ColumnList(col).value, reply)
  {
    var q := SelectSql(tables, col, where, orderBy, asc);
    if q.Err? {
      return None, Err(q.error);
    }
    sent := Some(q.value);
    if StartsWith(reply, "abort") {
      return sent, Ok(Aborted);
    }
    if StartsWith(reply, "Error") || reply == "" {
      return sent, Ok(NoResult);
    }
    var n := RealColNum(tables, ColumnList(col).value);
    if n.Err? {
      return sent, Err(n.error);
    }
    var rows := DecodeTable(reply, n.value);
    res := Ok(Rows(rows));
  }
}
