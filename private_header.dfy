/** The role-based menu of src/components/privateHeader.jsx: the constant
    permission table, the menu built from it in a fixed order by dropping
    the entries the role may not see, and the test that highlights the
    entry of the current page. */
module PrivateHeader {
  import opened JsRuntime

  /** What a role may see. */
  datatype Permisos = Permisos(
    prestadores: bool,
    egresos: bool,
    ingresos: bool,
    comprobantes: bool,
    convenios: bool,
    panel: bool,
    rolesAdmin: bool)

  /** `{}`: every flag reads as undefined, which is falsy. */
  const NoPermisos := Permisos(false, false, false, false, false, false, false)

  const RolePermissions: map<string, Permisos> := map[
    "coordinador" := Permisos(true, true, true, true, true, true, false),
    "contadora" := Permisos(false, true, true, true, false, true, false),
    "administrador" := Permisos(true, true, true, true, false, true, false),
    "ingeniera" := Permisos(true, false, false, true, true, true, false)
  ]

  /** `ROLE_PERMISSIONS[userRole] || {}`: a role outside the table gets no
      permission at all. */
  function PermisosOf(userRole: string): (p: Permisos)
    ensures userRole !in RolePermissions ==> p == NoPermisos
    ensures userRole in RolePermissions ==> p == RolePermissions[userRole]
  {
    if userRole in RolePermissions then RolePermissions[userRole] else NoPermisos
  }

  datatype NavItem = NavItem(href: string, text: string)

  /** The six menu entries, in the order the menu lists them. */
  const Items: seq<NavItem> := [
    NavItem("/prestadores", "Proovedores"),
    NavItem("/egresos", "Crear egreso"),
    NavItem("/comprobantes", "Comprobantes"),
    NavItem("/ingresos", "Ingresos"),
    NavItem("/convenios", "Convenios"),
    NavItem("/dashboard", "Panel")
  ]

  /** The permission flag that guards entry k of Items. */
  function Flag(p: Permisos, k: nat): bool
    requires k < 6
  {
    [p.prestadores, p.egresos, p.comprobantes, p.ingresos, p.convenios, p.panel][k]
  }

  /** The array literal before `.filter(Boolean)`: each entry is the item
      when its flag is set and a falsy value otherwise. */
  function Candidates(p: Permisos): (cs: seq<Option<NavItem>>)
    ensures |cs| == 6
    ensures forall k :: 0 <= k < 6 ==> cs[k] == if Flag(p, k) then Some(Items[k]) else None
  {
    [if p.prestadores then Some(Items[0]) else None,
     if p.egresos then Some(Items[1]) else None,
     if p.comprobantes then Some(Items[2]) else None,
     if p.ingresos then Some(Items[3]) else None,
     if p.convenios then Some(Items[4]) else None,
     if p.panel then Some(Items[5]) else None]
  }

  /** `.filter(Boolean)`: keeps the items, in order, and drops the rest. */
  function FilterPresent(cs: seq<Option<NavItem>>): (r: seq<NavItem>)
    ensures |r| <= |cs|
    ensures forall x :: x in r <==> Some(x) in cs
    ensures (forall k :: 0 <= k < |cs| ==> cs[k] == None) ==> r == []
  {
    if cs == [] then []
    else
      var rest := FilterPresent(cs[1..]);
      assert forall x :: Some(x) in cs <==> cs[0] == Some(x) || Some(x) in cs[1..];
      if cs[0].Some? then [cs[0].value] + rest else rest
  }

  /** The filter works element by element: it distributes over
      concatenation, so it keeps the order and the multiplicity of the
      present items. */
  lemma {:induction false} FilterAppend(a: seq<Option<NavItem>>, b: seq<Option<NavItem>>)
    ensures FilterPresent(a + b) == FilterPresent(a) + FilterPresent(b)
  {
    if a == [] {
      assert a + b == b;
    } else {
      assert (a + b)[0] == a[0];
      assert (a + b)[1..] == a[1..] + b;
      FilterAppend(a[1..], b);
    }
  }

  /** A present item is kept and a missing one dropped; with FilterAppend
      this fixes the filter on every list. */
  lemma FilterSingletons(x: NavItem)
    ensures FilterPresent([Some(x)]) == [x]
    ensures FilterPresent([None]) == []
  {
  }

  /** The menu a set of permissions shows: some of the six items, each
      at most once. */
  function Menu(p: Permisos): (menu: seq<NavItem>)
    ensures |menu| <= 6
    ensures forall x :: x in menu ==> x in Items
  {
    var cs := Candidates(p);
    assert forall x :: Some(x) in cs ==> x in Items by {
      forall x | Some(x) in cs
        ensures x in Items
      {
        var k :| 0 <= k < 6 && cs[k] == Some(x);
        assert Items[k] == x;
      }
    }
    FilterPresent(cs)
  }

  /** NAV for a role: an entry is on it exactly when the role is in the
      table and its flag for that entry is set; an unknown or missing role
      gets an empty menu. */
  function Nav(userRole: string): (nav: seq<NavItem>)
    ensures userRole !in RolePermissions ==> nav == []
    ensures forall k :: 0 <= k < 6 ==>
      (Items[k] in nav <==> userRole in RolePermissions && Flag(RolePermissions[userRole], k))
  {
    var p := PermisosOf(userRole);
    forall k | 0 <= k < 6
      ensures Items[k] in Menu(p) <==> Flag(p, k)
    {
      EntryIffFlag(p, k);
    }
    Menu(p)
  }

  /** `pathname === item.href`. Since the six hrefs are distinct, an active
      menu item is the only item whose href is the pathname. */
  predicate Active(pathname: string, item: NavItem)
    ensures Active(pathname, item) && item in Items ==>
      forall j :: 0 <= j < |Items| && Items[j].href == pathname ==> Items[j] == item
  {
    HrefsDistinct();
    pathname == item.href
  }

  lemma HrefsDistinct()
    ensures forall i, j :: 0 <= i < 6 && 0 <= j < 6 && Items[i].href == Items[j].href ==> i == j
  {
    forall i, j | 0 <= i < 6 && 0 <= j < 6 && Items[i].href == Items[j].href
      ensures i == j
    {
      ItemsDistinct(i, j);
    }
  }

  // ---------------------------------------------------------------------
  // The table, role by role

  lemma CoordinadorPermisos()
    ensures PermisosOf("coordinador") == Permisos(true, true, true, true, true, true, false)
  {
  }

  lemma ContadoraPermisos()
    ensures PermisosOf("contadora") == Permisos(false, true, true, true, false, true, false)
  {
  }

  lemma AdministradorPermisos()
    ensures PermisosOf("administrador") == Permisos(true, true, true, true, false, true, false)
  {
  }

  lemma IngenieraPermisos()
    ensures PermisosOf("ingeniera") == Permisos(true, false, false, true, true, true, false)
  {
  }

  /** The table has exactly the four roles. */
  lemma KnownRoles(userRole: string)
    ensures userRole in RolePermissions <==>
      userRole == "coordinador" || userRole == "contadora"
      || userRole == "administrador" || userRole == "ingeniera"
  {
  }

  // ---------------------------------------------------------------------
  // Properties

  lemma ItemsDistinct(i: nat, j: nat)
    requires i < 6 && j < 6 && Items[i].href == Items[j].href
    ensures i == j
  {
  }

  /** Entry k is on the menu exactly when its flag is set. */
  lemma EntryIffFlag(p: Permisos, k: nat)
    requires k < 6
    ensures Items[k] in Menu(p) <==> Flag(p, k)
  {
    var cs := Candidates(p);
    if Some(Items[k]) in cs {
      var j :| 0 <= j < 6 && cs[j] == Some(Items[k]);
      assert Items[j] == Items[k];
      ItemsDistinct(j, k);
    }
  }

  /** Position of an item in the fixed order (6 for anything else). */
  function Rank(item: NavItem): nat
  {
    if item == Items[0] then 0
    else if item == Items[1] then 1
    else if item == Items[2] then 2
    else if item == Items[3] then 3
    else if item == Items[4] then 4
    else if item == Items[5] then 5
    else 6
  }

  /** Candidates from position `from` on, each present entry at its own rank. */
  predicate RankedFrom(cs: seq<Option<NavItem>>, from: nat)
  {
    forall k :: 0 <= k < |cs| && cs[k].Some? ==> Rank(cs[k].value) == from + k
  }

  lemma {:induction false} FilterKeepsRankOrder(cs: seq<Option<NavItem>>, from: nat)
    requires RankedFrom(cs, from)
    ensures forall i :: 0 <= i < |FilterPresent(cs)| ==> Rank(FilterPresent(cs)[i]) >= from
    ensures forall i, j :: 0 <= i < j < |FilterPresent(cs)| ==> Rank(FilterPresent(cs)[i]) < Rank(FilterPresent(cs)[j])
  {
    if cs != [] {
      assert RankedFrom(cs[1..], from + 1) by {
        forall k | 0 <= k < |cs[1..]| && cs[1..][k].Some?
          ensures Rank(cs[1..][k].value) == from + 1 + k
        {
          assert cs[1..][k] == cs[k + 1];
        }
      }
      FilterKeepsRankOrder(cs[1..], from + 1);
    }
  }

  lemma ItemRanks()
    ensures forall k :: 0 <= k < 6 ==> Rank(Items[k]) == k
  {
  }

  /** The menu keeps the fixed order prestadores, egresos, comprobantes,
      ingresos, convenios, panel, and has at most six entries. */
  lemma MenuInOrder(p: Permisos)
    ensures |Menu(p)| <= 6
    ensures forall i, j :: 0 <= i < j < |Menu(p)| ==> Rank(Menu(p)[i]) < Rank(Menu(p)[j])
  {
    ItemRanks();
    FilterKeepsRankOrder(Candidates(p), 0);
  }

  /** No role in the table may administer roles, and the flag never adds
      an entry: the menu is the same whatever its value. */
  lemma RolesAdminUnused(p: Permisos, b: bool)
    ensures forall r :: r in RolePermissions ==> !RolePermissions[r].rolesAdmin
    ensures Menu(p) == Menu(p.(rolesAdmin := b))
  {
  }

  /** Every role in the table sees the vouchers list and the panel. */
  lemma KnownRolesSeeComprobantesAndPanel(userRole: string)
    requires userRole in RolePermissions
    ensures Items[2] in Nav(userRole) && Items[5] in Nav(userRole)
  {
    var p := PermisosOf(userRole);
    assert p.comprobantes && p.panel by {
      KnownRoles(userRole);
      CoordinadorPermisos();
      ContadoraPermisos();
      AdministradorPermisos();
      IngenieraPermisos();
    }
    EntryIffFlag(p, 2);
    EntryIffFlag(p, 5);
  }

  /** The accountant does not see providers or agreements. */
  lemma ContadoraRestricted()
    ensures Items[0] !in Nav("contadora") && Items[4] !in Nav("contadora")
  {
    ContadoraPermisos();
    EntryIffFlag(Permisos(false, true, true, true, false, true, false), 0);
    EntryIffFlag(Permisos(false, true, true, true, false, true, false), 4);
  }

  /** The engineer does not see expenses or incomes. */
  lemma IngenieraRestricted()
    ensures Items[1] !in Nav("ingeniera") && Items[3] !in Nav("ingeniera")
  {
    IngenieraPermisos();
    EntryIffFlag(Permisos(true, false, false, true, true, true, false), 1);
    EntryIffFlag(Permisos(true, false, false, true, true, true, false), 3);
  }

  /** With every entry present, the filter keeps them all, in order. */
  lemma {:induction false} AllPresentKept(cs: seq<Option<NavItem>>)
    requires forall k :: 0 <= k < |cs| ==> cs[k].Some?
    ensures |FilterPresent(cs)| == |cs|
    ensures forall k :: 0 <= k < |cs| ==> FilterPresent(cs)[k] == cs[k].value
  {
    if cs != [] {
      AllPresentKept(cs[1..]);
    }
  }

  lemma FullMenu()
    ensures |Menu(Permisos(true, true, true, true, true, true, false))| == 6
    ensures forall k :: 0 <= k < 6 ==> Menu(Permisos(true, true, true, true, true, true, false))[k] == Items[k]
  {
    var cs := Candidates(Permisos(true, true, true, true, true, true, false));
    assert cs == [Some(Items[0]), Some(Items[1]), Some(Items[2]), Some(Items[3]), Some(Items[4]), Some(Items[5])];
    AllPresentKept(cs);
    var r := FilterPresent(cs);
    assert r[0] == Items[0] && r[1] == Items[1] && r[2] == Items[2];
    assert r[3] == Items[3] && r[4] == Items[4] && r[5] == Items[5];
    assert forall k :: 0 <= k < 6 ==> r[k] == Items[k] by {
      forall k | 0 <= k < 6
        ensures r[k] == Items[k]
      {
        assert k == 0 || k == 1 || k == 2 || k == 3 || k == 4 || k == 5;
      }
    }
  }

  /** The coordinator sees all six entries, in order. */
  lemma CoordinatorSeesAll()
    ensures |Nav("coordinador")| == 6
    ensures forall k :: 0 <= k < 6 ==> Nav("coordinador")[k] == Items[k]
  {
    CoordinadorPermisos();
    FullMenu();
  }

  /** The hrefs on a menu are distinct, so at most one entry is active. */
  lemma AtMostOneActive(p: Permisos, pathname: string, i: nat, j: nat)
    requires i < |Menu(p)| && j < |Menu(p)|
    requires Active(pathname, Menu(p)[i]) && Active(pathname, Menu(p)[j])
    ensures i == j
  {
    var menu := Menu(p);
    var cs := Candidates(p);
    assert menu[i] in menu && menu[j] in menu;
    var a :| 0 <= a < 6 && cs[a] == Some(menu[i]);
    var b :| 0 <= b < 6 && cs[b] == Some(menu[j]);
    ItemsDistinct(a, b);
    MenuInOrder(p);
    ItemRanks();
  }
}
