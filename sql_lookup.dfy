/**
 * The translation of an SQL directory lookup's result rows into a principal
 * (`SqlMappings::row_to_principal`). The first row's columns are paired with
 * the column names; each name is compared, ignoring ASCII case, with the
 * configured column names for the secret, the type, the description, the
 * e-mail address and the quota, and a matching value of the expected kind is
 * stored in the principal.
 */
module SqlLookup {
  import opened Wrappers
  import opened Ascii

  newtype i64 = x: int | -0x8000_0000_0000_0000 <= x < 0x8000_0000_0000_0000
  newtype u64 = x: int | 0 <= x < 0x1_0000_0000_0000_0000

  /**
   * A value in a result row. `Other` stands for every remaining kind of value
   * (booleans, floats, blobs, NULL) and carries the text `to_str` renders it as.
   */
  datatype Value = Text(text: string) | Integer(number: i64) | Other(rendered: string)

  datatype Row = Row(values: seq<Value>)

  /** A query result: the column names and the rows, each a sequence of values. */
  datatype NamedRows = NamedRows(names: seq<string>, rows: seq<Row>)

  /** The configured names of the columns that hold each principal attribute. */
  datatype SqlMappings = SqlMappings(columnSecret: string, columnType: string, columnDescription: string,
                                     columnEmail: string, columnQuota: string)

  datatype Type = Individual | Group

  datatype Role = RoleUser | RoleAdmin

  datatype PrincipalField = Secrets | Description | Emails | Quota | Roles

  datatype FieldValue = Str(s: string) | Num(n: u64) | RoleId(role: Role)

  /** A principal: its type and its fields; setting a field replaces its previous value. */
  datatype Principal = Principal(typ: Type, fields: map<PrincipalField, FieldValue>)
  {
    function Set(f: PrincipalField, v: FieldValue): Principal
    {
      this.(fields := fields[f := v])
    }
  }

  /** `Principal::default()`: an individual without fields. */
  const DefaultPrincipal := Principal(Individual, map[])

  /** Rust's `quota as u64` on an `i64`: the same bits read as unsigned. */
  function AsU64(q: i64): (r: u64)
    ensures r as int == (q as int) % 0x1_0000_0000_0000_0000
    ensures q >= 0 ==> r as int == q as int
  {
    if q < 0 then (q as int + 0x1_0000_0000_0000_0000) as u64 else q as int as u64
  }

  predicate IsDigitChar(c: char) { '0' <= c <= '9' }

  function Digits(n: nat): (s: string)
    ensures |s| > 0 && forall i :: 0 <= i < |s| ==> IsDigitChar(s[i])
  {
    var last := [('0' as int + n % 10) as char];
    if n < 10 then last else Digits(n / 10) + last
  }

  /** The decimal text of an integer. */
  function Decimal(i: int): (s: string)
    ensures |s| > 0 && forall k :: 0 <= k < |s| ==> IsDigitChar(s[k]) || s[k] == '-'
  {
    if i < 0 then "-" + Digits(-i) else Digits(i)
  }

  /** `Value::to_str`. */
  function ToStr(v: Value): string
  {
    match v
    case Text(t) => t
    case Integer(i) => Decimal(i as int)
    case Other(r) => r
  }

  // ---------------------------------------------------------------------
  // The loop
  // ---------------------------------------------------------------------

  /** The first row's columns: names paired with values, as far as both go. */
  function Columns(names: seq<string>, values: seq<Value>): (cols: seq<(string, Value)>)
  {
    var n := if |names| <= |values| then |names| else |values|;
    seq(n, i requires 0 <= i < n => (names[i], values[i]))
  }

  /** `row_to_principal`. */
  method RowToPrincipal(m: SqlMappings, rows: NamedRows) returns (r: Option<Principal>)
    ensures r == RowToPrincipalSpec(m, rows)
  {
    if |rows.rows| == 0 {
      return None;
    }
    var principal := DefaultPrincipal;
    var role := RoleUser;
    var row := rows.rows[0];
    ghost var effects := Effects(m, Columns(rows.names, row.values));
    var n := if |rows.names| <= |row.values| then |rows.names| else |row.values|;
    for i := 0 to n
      invariant Draft(principal, role) == ApplyAll(Start, effects[..i])
    {
      var name, value := rows.names[i], row.values[i];
      assert effects[..i + 1][..i] == effects[..i] && effects[i] == EffectOf(m, (name, value));
      ApplyEffectOf(m, Draft(principal, role), (name, value));
      if EqIgnoreCase(name, m.columnSecret) {
        if value.Text? {
          principal := principal.Set(Secrets, Str(value.text));
        }
      } else if EqIgnoreCase(name, m.columnType) {
        var t := ToStr(value);
        if t == "individual" || t == "person" || t == "user" {
          principal := principal.(typ := Individual);
        } else if t == "group" {
          principal := principal.(typ := Group);
        } else if t == "admin" || t == "superuser" || t == "administrator" {
          principal := principal.(typ := Individual);
          role := RoleAdmin;
        }
      } else if EqIgnoreCase(name, m.columnDescription) {
        if value.Text? {
          principal := principal.Set(Description, Str(value.text));
        }
      } else if EqIgnoreCase(name, m.columnEmail) {
        if value.Text? {
          principal := principal.Set(Emails, Str(Lower(value.text)));
        }
      } else if EqIgnoreCase(name, m.columnQuota) {
        if value.Integer? {
          principal := principal.Set(Quota, Num(AsU64(value.number)));
        }
      }
    }
    assert effects[..n] == effects;
    return Some(principal.Set(Roles, RoleId(role)));
  }

  // ---------------------------------------------------------------------
  // Reference definition, column by column
  // ---------------------------------------------------------------------

  /** Which configured column a name selects; the first match in this order wins. */
  datatype ColumnKind = SecretColumn | TypeColumn | DescriptionColumn | EmailColumn | QuotaColumn | Unmapped

  function Classify(m: SqlMappings, name: string): ColumnKind
  {
    if EqIgnoreCase(name, m.columnSecret) then SecretColumn
    else if EqIgnoreCase(name, m.columnType) then TypeColumn
    else if EqIgnoreCase(name, m.columnDescription) then DescriptionColumn
    else if EqIgnoreCase(name, m.columnEmail) then EmailColumn
    else if EqIgnoreCase(name, m.columnQuota) then QuotaColumn
    else Unmapped
  }

  predicate IsAdminSpelling(t: string)
  {
    t == "admin" || t == "superuser" || t == "administrator"
  }

  /** The type a type column's text selects, if it names one. */
  function TypeNamed(t: string): Option<Type>
  {
    if t == "individual" || t == "person" || t == "user" || IsAdminSpelling(t) then Some(Individual)
    else if t == "group" then Some(Group)
    else None
  }

  /** What a column writes into a field of the principal, if anything. */
  function FieldWrite(m: SqlMappings, col: (string, Value), f: PrincipalField): Option<FieldValue>
  {
    var (kind, value) := (Classify(m, col.0), col.1);
    match f
    case Secrets => if kind == SecretColumn && value.Text? then Some(Str(value.text)) else None
    case Description => if kind == DescriptionColumn && value.Text? then Some(Str(value.text)) else None
    case Emails => if kind == EmailColumn && value.Text? then Some(Str(Lower(value.text))) else None
    case Quota => if kind == QuotaColumn && value.Integer? then Some(Num(AsU64(value.number))) else None
    case Roles => None
  }

  /** The type a column sets, if any. */
  function TypeWrite(m: SqlMappings, col: (string, Value)): Option<Type>
  {
    if Classify(m, col.0) == TypeColumn then TypeNamed(ToStr(col.1)) else None
  }

  /** Whether a column grants the admin role. */
  predicate AdminWrite(m: SqlMappings, col: (string, Value))
  {
    Classify(m, col.0) == TypeColumn && IsAdminSpelling(ToStr(col.1))
  }

  /** What one column does: the type it sets, whether it grants the admin role, the fields it writes. */
  datatype Effect = Effect(typ: Option<Type>, admin: bool, writes: map<PrincipalField, FieldValue>)

  function EffectOf(m: SqlMappings, col: (string, Value)): Effect
  {
    Effect(TypeWrite(m, col), AdminWrite(m, col),
           map f | f in {Secrets, Description, Emails, Quota} && FieldWrite(m, col, f).Some? :: FieldWrite(m, col, f).value)
  }

  function Effects(m: SqlMappings, cols: seq<(string, Value)>): seq<Effect>
  {
    seq(|cols|, i requires 0 <= i < |cols| => EffectOf(m, cols[i]))
  }

  /** The principal under construction and the role it will be given. */
  datatype Draft = Draft(principal: Principal, role: Role)

  function Apply(d: Draft, e: Effect): Draft
  {
    Draft(Principal(if e.typ.Some? then e.typ.value else d.principal.typ, d.principal.fields + e.writes),
          if e.admin then RoleAdmin else d.role)
  }

  /** The draft after applying the effects `es` in order, starting from `d`. */
  function ApplyAll(d: Draft, es: seq<Effect>): Draft
  {
    if es == [] then d else Apply(ApplyAll(d, es[..|es| - 1]), es[|es| - 1])
  }

  const Start := Draft(DefaultPrincipal, RoleUser)

  function RowToPrincipalSpec(m: SqlMappings, rows: NamedRows): Option<Principal>
  {
    if |rows.rows| == 0 then None
    else
      var d := ApplyAll(Start, Effects(m, Columns(rows.names, rows.rows[0].values)));
      Some(d.principal.Set(Roles, RoleId(d.role)))
  }

  /** One column's effect, spelled out for each kind of column. */
  lemma ApplyEffectOf(m: SqlMappings, d: Draft, col: (string, Value))
    ensures var (kind, value, p) := (Classify(m, col.0), col.1, d.principal);
      Apply(d, EffectOf(m, col)) ==
        match kind
        case SecretColumn => if value.Text? then Draft(p.Set(Secrets, Str(value.text)), d.role) else d
        case TypeColumn =>
          var t := ToStr(value);
          if t == "individual" || t == "person" || t == "user" then Draft(p.(typ := Individual), d.role)
          else if t == "group" then Draft(p.(typ := Group), d.role)
          else if IsAdminSpelling(t) then Draft(p.(typ := Individual), RoleAdmin)
          else d
        case DescriptionColumn => if value.Text? then Draft(p.Set(Description, Str(value.text)), d.role) else d
        case EmailColumn => if value.Text? then Draft(p.Set(Emails, Str(Lower(value.text))), d.role) else d
        case QuotaColumn => if value.Integer? then Draft(p.Set(Quota, Num(AsU64(value.number))), d.role) else d
        case Unmapped => d
  {
    EffectOfByKind(m, col);
  }

  lemma EffectOfByKind(m: SqlMappings, col: (string, Value))
    ensures var value := col.1;
      EffectOf(m, col) ==
        match Classify(m, col.0)
        case SecretColumn => Effect(None, false, if value.Text? then map[Secrets := Str(value.text)] else map[])
        case TypeColumn => Effect(TypeNamed(ToStr(value)), IsAdminSpelling(ToStr(value)), map[])
        case DescriptionColumn => Effect(None, false, if value.Text? then map[Description := Str(value.text)] else map[])
        case EmailColumn => Effect(None, false, if value.Text? then map[Emails := Str(Lower(value.text))] else map[])
        case QuotaColumn => Effect(None, false, if value.Integer? then map[Quota := Num(AsU64(value.number))] else map[])
        case Unmapped => Effect(None, false, map[])
  {
    var w := EffectOf(m, col).writes;
    match Classify(m, col.0)
    case SecretColumn =>
      if col.1.Text? { assert w == map[Secrets := Str(col.1.text)]; } else { assert w == map[]; }
    case DescriptionColumn =>
      if col.1.Text? { assert w == map[Description := Str(col.1.text)]; } else { assert w == map[]; }
    case EmailColumn =>
      if col.1.Text? { assert w == map[Emails := Str(Lower(col.1.text))]; } else { assert w == map[]; }
    case QuotaColumn =>
      if col.1.Integer? { assert w == map[Quota := Num(AsU64(col.1.number))]; } else { assert w == map[]; }
    case TypeColumn =>
      assert w == map[];
    case Unmapped =>
      assert w == map[];
  }
}

/** Properties of the row-to-principal translation. */
module SqlLookupProperties {
  import opened Wrappers
  import opened Ascii
  import opened SqlLookup

  // ---------------------------------------------------------------------
  // One column
  // ---------------------------------------------------------------------

  /** The fields a column's effect writes are exactly those `FieldWrite` names, with its values. */
  lemma EffectWrites(m: SqlMappings, col: (string, Value), f: PrincipalField)
    requires f != Roles
    ensures f in EffectOf(m, col).writes <==> FieldWrite(m, col, f).Some?
    ensures f in EffectOf(m, col).writes ==> EffectOf(m, col).writes[f] == FieldWrite(m, col, f).value
  {
  }

  lemma EffectTypeAndRole(m: SqlMappings, col: (string, Value))
    ensures EffectOf(m, col).typ == TypeWrite(m, col) && EffectOf(m, col).admin == AdminWrite(m, col)
  {
  }

  lemma EqIgnoreCaseSameClass(n1: string, n2: string, c: string)
    requires EqIgnoreCase(n1, n2)
    ensures EqIgnoreCase(n1, c) == EqIgnoreCase(n2, c)
  {
    EqIgnoreCaseSymmetric(n1, n2);
    if EqIgnoreCase(n1, c) { EqIgnoreCaseTransitive(n2, n1, c); }
    if EqIgnoreCase(n2, c) { EqIgnoreCaseTransitive(n1, n2, c); }
  }

  /** Column names are compared ignoring ASCII case: two such spellings of a name act alike. */
  lemma EffectIgnoresNameCase(m: SqlMappings, n1: string, n2: string, v: Value)
    requires EqIgnoreCase(n1, n2)
    ensures EffectOf(m, (n1, v)) == EffectOf(m, (n2, v))
  {
    EqIgnoreCaseSameClass(n1, n2, m.columnSecret);
    EqIgnoreCaseSameClass(n1, n2, m.columnType);
    EqIgnoreCaseSameClass(n1, n2, m.columnDescription);
    EqIgnoreCaseSameClass(n1, n2, m.columnEmail);
    EqIgnoreCaseSameClass(n1, n2, m.columnQuota);
    assert Classify(m, n1) == Classify(m, n2);
    EffectOfByKind(m, (n1, v));
    EffectOfByKind(m, (n2, v));
  }

  /** An integer in the type column never names a type: its decimal text has no letters. */
  lemma IntegerTypeIgnored(m: SqlMappings, name: string, q: i64)
    ensures TypeWrite(m, (name, Integer(q))).None? && !AdminWrite(m, (name, Integer(q)))
  {
    var t := Decimal(q as int);
    assert IsDigitChar(t[0]) || t[0] == '-';
    assert TypeNamed(t).None? && !IsAdminSpelling(t);
  }

  // ---------------------------------------------------------------------
  // Applying effects in order
  // ---------------------------------------------------------------------

  lemma {:induction false} ApplyAllAppend(d: Draft, a: seq<Effect>, b: seq<Effect>)
    ensures ApplyAll(d, a + b) == ApplyAll(ApplyAll(d, a), b)
    decreases |b|
  {
    if b == [] {
      assert a + b == a;
    } else {
      assert (a + b)[..|a + b| - 1] == a + b[..|b| - 1];
      ApplyAllAppend(d, a, b[..|b| - 1]);
    }
  }

  lemma EffectsAppend(m: SqlMappings, a: seq<(string, Value)>, b: seq<(string, Value)>)
    ensures Effects(m, a + b) == Effects(m, a) + Effects(m, b)
  {
  }

  /** A column whose name matches no configured column changes nothing, wherever it stands. */
  lemma UnmappedColumnIgnored(m: SqlMappings, d: Draft, a: seq<(string, Value)>, col: (string, Value),
                              b: seq<(string, Value)>)
    requires Classify(m, col.0) == Unmapped
    ensures ApplyAll(d, Effects(m, a + [col] + b)) == ApplyAll(d, Effects(m, a + b))
  {
    var x := ApplyAll(d, Effects(m, a));
    EffectOfByKind(m, col);
    assert x.principal.fields + map[] == x.principal.fields;
    assert Apply(x, EffectOf(m, col)) == x;
    EffectsAppend(m, a, [col]);
    EffectsAppend(m, a + [col], b);
    EffectsAppend(m, a, b);
    assert Effects(m, [col]) == [EffectOf(m, col)];
    ApplyAllAppend(d, Effects(m, a), [EffectOf(m, col)]);
    ApplyAllAppend(d, Effects(m, a) + [EffectOf(m, col)], Effects(m, b));
    ApplyAllAppend(d, Effects(m, a), Effects(m, b));
  }

  /**
   * A field ends up set exactly when it was set before or some effect writes
   * it; its value is that of the last effect writing it, and it keeps its
   * earlier value when no effect writes it.
   */
  lemma {:induction false} ApplyAllField(d: Draft, es: seq<Effect>, f: PrincipalField)
    ensures f in ApplyAll(d, es).principal.fields <==>
              f in d.principal.fields || exists i :: 0 <= i < |es| && f in es[i].writes
    ensures (forall i :: 0 <= i < |es| ==> f !in es[i].writes) && f in d.principal.fields ==>
              ApplyAll(d, es).principal.fields[f] == d.principal.fields[f]
    ensures forall i :: 0 <= i < |es| && f in es[i].writes && (forall j :: i < j < |es| ==> f !in es[j].writes) ==>
              f in ApplyAll(d, es).principal.fields && ApplyAll(d, es).principal.fields[f] == es[i].writes[f]
  {
    if es != [] {
      var prefix, last := es[..|es| - 1], es[|es| - 1];
      ApplyAllField(d, prefix, f);
      var before := ApplyAll(d, prefix).principal.fields;
      var after := ApplyAll(d, es).principal.fields;
      assert after == before + last.writes;
      assert forall i :: 0 <= i < |prefix| ==> prefix[i] == es[i];
      forall i | 0 <= i < |es| && f in es[i].writes && (forall j :: i < j < |es| ==> f !in es[j].writes)
        ensures f in after && after[f] == es[i].writes[f]
      {
        if i < |prefix| {
          assert f in prefix[i].writes && forall j :: i < j < |prefix| ==> f !in prefix[j].writes;
        }
      }
    }
  }

  /** The type is the one set by the last effect that sets one, or the starting type if none does. */
  lemma {:induction false} ApplyAllType(d: Draft, es: seq<Effect>)
    ensures (forall i :: 0 <= i < |es| ==> es[i].typ.None?) ==> ApplyAll(d, es).principal.typ == d.principal.typ
    ensures forall i :: 0 <= i < |es| && es[i].typ.Some? && (forall j :: i < j < |es| ==> es[j].typ.None?) ==>
              ApplyAll(d, es).principal.typ == es[i].typ.value
  {
    if es != [] {
      var prefix := es[..|es| - 1];
      ApplyAllType(d, prefix);
      assert forall i :: 0 <= i < |prefix| ==> prefix[i] == es[i];
    }
  }

  /** The role is admin exactly when it started so or some effect grants it. */
  lemma {:induction false} ApplyAllRole(d: Draft, es: seq<Effect>)
    ensures ApplyAll(d, es).role == RoleAdmin <==> d.role == RoleAdmin || exists i :: 0 <= i < |es| && es[i].admin
  {
    if es != [] {
      var prefix := es[..|es| - 1];
      ApplyAllRole(d, prefix);
      assert forall i :: 0 <= i < |prefix| ==> prefix[i] == es[i];
    }
  }

  // ---------------------------------------------------------------------
  // The whole translation
  // ---------------------------------------------------------------------

  /** The columns of the first row. */
  function FirstRow(rows: NamedRows): seq<(string, Value)>
    requires |rows.rows| > 0
  {
    Columns(rows.names, rows.rows[0].values)
  }

  /**
   * No row gives no principal, any row gives one; its roles field is always
   * set, to admin exactly when a type column of the first row spells an admin type.
   */
  lemma RowToPrincipalRoles(m: SqlMappings, rows: NamedRows)
    ensures RowToPrincipalSpec(m, rows).None? <==> |rows.rows| == 0
    ensures |rows.rows| > 0 ==>
              var p := RowToPrincipalSpec(m, rows).value;
              var admin := exists i :: 0 <= i < |FirstRow(rows)| && AdminWrite(m, FirstRow(rows)[i]);
              Roles in p.fields && p.fields[Roles] == RoleId(if admin then RoleAdmin else RoleUser)
  {
    if |rows.rows| > 0 {
      var cols := FirstRow(rows);
      ApplyAllRole(Start, Effects(m, cols));
      assert forall i :: 0 <= i < |cols| ==> Effects(m, cols)[i].admin == AdminWrite(m, cols[i]);
    }
  }

  /** Only the first row is read. */
  lemma RowToPrincipalFirstRowOnly(m: SqlMappings, names: seq<string>, row: Row, rest: seq<Row>)
    ensures RowToPrincipalSpec(m, NamedRows(names, [row] + rest)) == RowToPrincipalSpec(m, NamedRows(names, [row]))
  {
  }

  /** Names without a value and values without a name are ignored. */
  lemma RowToPrincipalSurplusIgnored(m: SqlMappings, names: seq<string>, values: seq<Value>, k: nat)
    requires k == if |names| <= |values| then |names| else |values|
    ensures RowToPrincipalSpec(m, NamedRows(names, [Row(values)])) ==
            RowToPrincipalSpec(m, NamedRows(names[..k], [Row(values[..k])]))
  {
    assert Columns(names, values) == Columns(names[..k], values[..k]);
  }

  /**
   * The secret, description, e-mail and quota fields: set exactly when some
   * column of the first row writes them, and then to the last such write.
   */
  lemma RowToPrincipalField(m: SqlMappings, rows: NamedRows, f: PrincipalField)
    requires |rows.rows| > 0 && f != Roles
    ensures var p := RowToPrincipalSpec(m, rows).value; var cols := FirstRow(rows);
            (f in p.fields <==> exists i :: 0 <= i < |cols| && FieldWrite(m, cols[i], f).Some?) &&
            forall i :: 0 <= i < |cols| && FieldWrite(m, cols[i], f).Some? &&
                        (forall j :: i < j < |cols| ==> FieldWrite(m, cols[j], f).None?) ==>
              f in p.fields && p.fields[f] == FieldWrite(m, cols[i], f).value
  {
    var cols := FirstRow(rows);
    var es := Effects(m, cols);
    forall i | 0 <= i < |cols|
      ensures (f in es[i].writes <==> FieldWrite(m, cols[i], f).Some?)
      ensures f in es[i].writes ==> es[i].writes[f] == FieldWrite(m, cols[i], f).value
    {
      EffectWrites(m, cols[i], f);
    }
    ApplyAllField(Start, es, f);
  }

  /**
   * What each field can hold: the secret and description come from a text
   * value of their column, the e-mail address from a text value lowercased,
   * the quota from an integer value read as unsigned.
   */
  lemma RowToPrincipalFieldOrigins(m: SqlMappings, rows: NamedRows)
    requires |rows.rows| > 0
    ensures var p := RowToPrincipalSpec(m, rows).value; var cols := FirstRow(rows);
            (Secrets in p.fields ==> exists i :: 0 <= i < |cols| && Classify(m, cols[i].0) == SecretColumn &&
                                                 cols[i].1.Text? && p.fields[Secrets] == Str(cols[i].1.text)) &&
            (Description in p.fields ==> exists i :: 0 <= i < |cols| && Classify(m, cols[i].0) == DescriptionColumn &&
                                                     cols[i].1.Text? && p.fields[Description] == Str(cols[i].1.text)) &&
            (Emails in p.fields ==> exists i :: 0 <= i < |cols| && Classify(m, cols[i].0) == EmailColumn &&
                                                cols[i].1.Text? && p.fields[Emails] == Str(Lower(cols[i].1.text))) &&
            (Emails in p.fields ==> p.fields[Emails].Str? && NoUpper(p.fields[Emails].s)) &&
            (Quota in p.fields ==> exists i :: 0 <= i < |cols| && Classify(m, cols[i].0) == QuotaColumn &&
                                               cols[i].1.Integer? && p.fields[Quota] == Num(AsU64(cols[i].1.number)))
  {
    var cols := FirstRow(rows);
    var p := RowToPrincipalSpec(m, rows).value;
    if Secrets in p.fields {
      var i := FieldSource(m, rows, Secrets);
    }
    if Description in p.fields {
      var i := FieldSource(m, rows, Description);
    }
    if Emails in p.fields {
      var i := FieldSource(m, rows, Emails);
      LowerIsLowercase(cols[i].1.text);
    }
    if Quota in p.fields {
      var i := FieldSource(m, rows, Quota);
    }
  }

  /** A column of the first row whose write a set field holds. */
  lemma FieldSource(m: SqlMappings, rows: NamedRows, f: PrincipalField) returns (i: nat)
    requires |rows.rows| > 0 && f != Roles && f in RowToPrincipalSpec(m, rows).value.fields
    ensures i < |FirstRow(rows)| && FieldWrite(m, FirstRow(rows)[i], f) == Some(RowToPrincipalSpec(m, rows).value.fields[f])
  {
    RowToPrincipalField(m, rows, f);
    i := LastWrite(m, FirstRow(rows), f);
  }

  /** The type: the one named by the last type column of the first row that names one, else an individual. */
  lemma RowToPrincipalType(m: SqlMappings, rows: NamedRows)
    requires |rows.rows| > 0
    ensures var p := RowToPrincipalSpec(m, rows).value; var cols := FirstRow(rows);
            ((forall i :: 0 <= i < |cols| ==> TypeWrite(m, cols[i]).None?) ==> p.typ == Individual) &&
            forall i :: 0 <= i < |cols| && TypeWrite(m, cols[i]).Some? &&
                        (forall j :: i < j < |cols| ==> TypeWrite(m, cols[j]).None?) ==>
              p.typ == TypeWrite(m, cols[i]).value
  {
    var cols := FirstRow(rows);
    var es := Effects(m, cols);
    var p := RowToPrincipalSpec(m, rows).value;
    assert p.typ == ApplyAll(Start, es).principal.typ;
    ApplyAllType(Start, es);
    forall i | 0 <= i < |cols| ensures es[i].typ == TypeWrite(m, cols[i]) {
      EffectTypeAndRole(m, cols[i]);
    }
    forall i | 0 <= i < |cols| && TypeWrite(m, cols[i]).Some? &&
               (forall j :: i < j < |cols| ==> TypeWrite(m, cols[j]).None?)
      ensures p.typ == TypeWrite(m, cols[i]).value
    {
      assert es[i].typ.Some? && forall j :: i < j < |es| ==> es[j].typ.None?;
    }
  }

  /**
   * When the secret column's name is also the type column's name, the
   * secret branch takes that column: the type and the role keep their defaults.
   */
  lemma RowToPrincipalSecretShadowsType(m: SqlMappings, rows: NamedRows)
    requires |rows.rows| > 0 && EqIgnoreCase(m.columnSecret, m.columnType)
    ensures RowToPrincipalSpec(m, rows).value.typ == Individual
    ensures RowToPrincipalSpec(m, rows).value.fields[Roles] == RoleId(RoleUser)
  {
    var cols := FirstRow(rows);
    var es := Effects(m, cols);
    forall i | 0 <= i < |cols| ensures es[i].typ.None? && !es[i].admin {
      if EqIgnoreCase(cols[i].0, m.columnType) {
        EqIgnoreCaseSymmetric(m.columnSecret, m.columnType);
        EqIgnoreCaseTransitive(cols[i].0, m.columnType, m.columnSecret);
      }
    }
    ApplyAllType(Start, es);
    ApplyAllRole(Start, es);
  }

  /** Index of the last column that writes `f`, when one does. */
  function LastWrite(m: SqlMappings, cols: seq<(string, Value)>, f: PrincipalField): (i: nat)
    requires exists i :: 0 <= i < |cols| && FieldWrite(m, cols[i], f).Some?
    ensures i < |cols| && FieldWrite(m, cols[i], f).Some?
    ensures forall j :: i < j < |cols| ==> FieldWrite(m, cols[j], f).None?
  {
    if FieldWrite(m, cols[|cols| - 1], f).Some? then |cols| - 1
    else
      var prefix := cols[..|cols| - 1];
      assert exists i :: 0 <= i < |prefix| && FieldWrite(m, prefix[i], f).Some? by {
        var i :| 0 <= i < |cols| && FieldWrite(m, cols[i], f).Some?;
        assert prefix[i] == cols[i];
      }
      var i := LastWrite(m, prefix, f);
      assert prefix[i] == cols[i];
      i
  }
}
