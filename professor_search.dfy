/**
 * The search filters of the professor page: a name query, a department
 * query, a tenure filter (unset, 1 or 0), a salary filter (a comparison,
 * unset or "greater" or "less", and an amount text) and the request body
 * sent to `/professor/search`. A change of the query, the department or
 * the tenure always sends it; a change of the salary comparison or amount
 * sends it only when a comparison is set and the amount is not empty.
 */
module ProfessorSearch {
  import opened Wrappers

  /** The salary comparison the two radio buttons choose. */
  datatype SalaryType = Greater | Less

  /** The JSON text of a comparison. */
  function SalaryTypeText(t: SalaryType): (s: string)
    ensures s == "greater" || s == "less"
  {
    match t
    case Greater => "greater"
    case Less => "less"
  }

  /** The values a search body carries. */
  datatype Json = JString(text: string) | JNumber(number: int)

  /** The member names a search body may have, in the order it adds them. */
  datatype Field = Name | Department | Tenure | Salary | SalaryValue

  /** The JSON member name of a field. */
  function FieldName(f: Field): string {
    match f
    case Name => "name"
    case Department => "department"
    case Tenure => "tenure"
    case Salary => "salary"
    case SalaryValue => "salaryValue"
  }

  /** Where a field comes in a body the code builds. */
  function Position(f: Field): nat {
    match f
    case Name => 0
    case Department => 1
    case Tenure => 2
    case Salary => 3
    case SalaryValue => 4
  }

  /** Different fields have different member names. */
  lemma FieldNameInjective(f: Field, g: Field)
    ensures FieldName(f) == FieldName(g) <==> f == g
  {
    if f != g {
      assert |FieldName(f)| != |FieldName(g)| || FieldName(f)[0] != FieldName(g)[0];
    }
  }

  /** A JSON object as `JSON.stringify` writes it: its members in the order
      they were added. */
  type Body = seq<(Field, Json)>

  /** The member names of a body, in order. */
  function Keys(body: Body): (keys: seq<Field>)
    ensures |keys| == |body|
    ensures forall i :: 0 <= i < |body| ==> keys[i] == body[i].0
  {
    if body == [] then [] else [body[0].0] + Keys(body[1..])
  }

  /** The value of the first member with the name, if any. */
  function Lookup(body: Body, key: Field): (v: Option<Json>)
    ensures v.Some? <==> key in Keys(body)
  {
    if body == [] then None
    else if body[0].0 == key then Some(body[0].1)
    else Lookup(body[1..], key)
  }

  /** A lookup in two bodies one after the other finds the first body's
      member when it has one, and the second body's otherwise. */
  lemma {:induction false} LookupAppend(a: Body, b: Body, key: Field)
    ensures Lookup(a + b, key) == if key in Keys(a) then Lookup(a, key) else Lookup(b, key)
  {
    if a == [] {
      assert a + b == b;
    } else {
      assert (a + b)[1..] == a[1..] + b;
      assert Keys(a) == [a[0].0] + Keys(a[1..]);
      LookupAppend(a[1..], b, key);
    }
  }

  /** A member added when `present` holds. */
  function Optional(present: bool, member: Body): Body {
    if present then member else []
  }

  /**
   * `searchProfessors(name, department, tenure, salary, salaryValue)`:
   * `{ name }`, then `department` when it is not the empty text, `tenure`
   * when it is not `null` (so a tenure of 0 is sent), and `salary`
   * together with `salaryValue` when a comparison is set.
   */
  function SearchBody(name: string, department: string, tenure: Option<int>, salary: Option<SalaryType>, salaryValue: string): Body {
    [(Name, JString(name))]
    + Optional(department != "", [(Department, JString(department))])
    + Optional(tenure.Some?, [(Tenure, JNumber(if tenure.Some? then tenure.value else 0))])
    + Optional(salary.Some?, [(Salary, JString(if salary.Some? then SalaryTypeText(salary.value) else "")), (SalaryValue, JString(salaryValue))])
  }

  /** The value a search body holds under a field, if it has the field. */
  function Expected(key: Field, name: string, department: string, tenure: Option<int>, salary: Option<SalaryType>, salaryValue: string): Option<Json> {
    match key
    case Name => Some(JString(name))
    case Department => if department != "" then Some(JString(department)) else None
    case Tenure => if tenure.Some? then Some(JNumber(tenure.value)) else None
    case Salary => if salary.Some? then Some(JString(SalaryTypeText(salary.value))) else None
    case SalaryValue => if salary.Some? then Some(JString(salaryValue)) else None
  }

  /** One field of a search body. */
  lemma SearchBodyMember(key: Field, name: string, department: string, tenure: Option<int>, salary: Option<SalaryType>, salaryValue: string)
    ensures Lookup(SearchBody(name, department, tenure, salary, salaryValue), key)
            == Expected(key, name, department, tenure, salary, salaryValue)
  {
    var n := [(Name, JString(name))];
    var d := Optional(department != "", [(Department, JString(department))]);
    var t := Optional(tenure.Some?, [(Tenure, JNumber(if tenure.Some? then tenure.value else 0))]);
    var s := Optional(salary.Some?, [(Salary, JString(if salary.Some? then SalaryTypeText(salary.value) else "")), (SalaryValue, JString(salaryValue))]);
    assert SearchBody(name, department, tenure, salary, salaryValue) == n + (d + (t + s));
    LookupAppend(n, d + (t + s), key);
    LookupAppend(d, t + s, key);
    LookupAppend(t, s, key);
  }

  /** A search body has `name` first, each member name at most once, in the
      order the code adds them, and `salary` exactly when `salaryValue`. */
  lemma SearchBodyKeys(name: string, department: string, tenure: Option<int>, salary: Option<SalaryType>, salaryValue: string)
    ensures var keys := Keys(SearchBody(name, department, tenure, salary, salaryValue));
            && keys[0] == Name
            && (forall i, j :: 0 <= i < j < |keys| ==> Position(keys[i]) < Position(keys[j]))
            && (Salary in keys <==> SalaryValue in keys)
  {
    SearchBodyKeysAre(name, department, tenure, salary, salaryValue);
    PresentKeysAscend(department != "", tenure.Some?, salary.Some?);
  }

  /** The member names a search body has, given which filters are set. */
  function PresentKeys(hasDepartment: bool, hasTenure: bool, hasSalary: bool): seq<Field> {
    [Name]
    + (if hasDepartment then [Department] else [])
    + (if hasTenure then [Tenure] else [])
    + (if hasSalary then [Salary, SalaryValue] else [])
  }

  lemma SearchBodyKeysAre(name: string, department: string, tenure: Option<int>, salary: Option<SalaryType>, salaryValue: string)
    ensures Keys(SearchBody(name, department, tenure, salary, salaryValue)) == PresentKeys(department != "", tenure.Some?, salary.Some?)
  {
    var n := [(Name, JString(name))];
    var d := Optional(department != "", [(Department, JString(department))]);
    var t := Optional(tenure.Some?, [(Tenure, JNumber(if tenure.Some? then tenure.value else 0))]);
    var s := Optional(salary.Some?, [(Salary, JString(if salary.Some? then SalaryTypeText(salary.value) else "")), (SalaryValue, JString(salaryValue))]);
    assert SearchBody(name, department, tenure, salary, salaryValue) == ((n + d) + t) + s;
    KeysAppend(n + d + t, s);
    KeysAppend(n + d, t);
    KeysAppend(n, d);
  }

  lemma PresentKeysAscend(hasDepartment: bool, hasTenure: bool, hasSalary: bool)
    ensures var keys := PresentKeys(hasDepartment, hasTenure, hasSalary);
            && keys[0] == Name
            && (forall i, j :: 0 <= i < j < |keys| ==> Position(keys[i]) < Position(keys[j]))
            && (Salary in keys <==> SalaryValue in keys)
  {
  }

  /** The member names of two bodies one after the other. */
  lemma KeysAppend(a: Body, b: Body)
    ensures Keys(a + b) == Keys(a) + Keys(b)
  {
  }

  /** Whether a filter beyond the name is set: `departmentQuery ||
      tenureFilter !== null || salaryFilter.type`. The salary amount alone
      does not count. */
  predicate FiltersActive(department: string, tenure: Option<int>, salary: Option<SalaryType>) {
    department != "" || tenure.Some? || salary.Some?
  }

  /** The filter badge shows exactly when the search body carries more than
      the name. */
  lemma FiltersActiveIffBodyFilters(name: string, department: string, tenure: Option<int>, salary: Option<SalaryType>, salaryValue: string)
    ensures FiltersActive(department, tenure, salary)
            <==> SearchBody(name, department, tenure, salary, salaryValue) != [(Name, JString(name))]
  {
  }

  /**
   * A radio-style toggle: choosing the value that is already chosen clears
   * the choice, choosing any other value chooses it
   * (`current === value ? null : value`).
   */
  function Toggle<T(==)>(current: Option<T>, value: T): Option<T> {
    if current == Some(value) then None else Some(value)
  }

  /** After a toggle the choice is the toggled value or nothing, and it is
      nothing exactly when the value was already chosen. */
  lemma ToggleChoice<T>(current: Option<T>, value: T)
    ensures Toggle(current, value) == None <==> current == Some(value)
    ensures Toggle(current, value) != None ==> Toggle(current, value) == Some(value)
  {
  }

  /** Toggling one value twice returns to the start exactly when the start
      was nothing or that value; from another value it ends at nothing. */
  lemma ToggleTwice<T>(current: Option<T>, value: T)
    ensures Toggle(Toggle(current, value), value) == current <==> current == None || current == Some(value)
    ensures current != None && current != Some(value) ==> Toggle(Toggle(current, value), value) == None
  {
  }

  /**
   * The filter state of the page and the handlers that change it. Each
   * handler that searches returns the body it sends.
   */
  class FilterState {
    var showFilterMenu: bool
    var searchQuery: string
    var departmentQuery: string
    var tenureFilter: Option<int>
    var salaryType: Option<SalaryType>
    var salaryValue: string
    /** The class highlighted in the weekly grid. */
    var selectedClass: Option<int>

    /** The initial `useState` values. */
    constructor()
      ensures !showFilterMenu && searchQuery == "" && departmentQuery == ""
      ensures tenureFilter == None && salaryType == None && salaryValue == ""
      ensures selectedClass == None
    {
      showFilterMenu := false;
      searchQuery := "";
      departmentQuery := "";
      tenureFilter := None;
      salaryType := None;
      salaryValue := "";
      selectedClass := None;
    }

    /** `hasActiveFilters`. */
    predicate HasActiveFilters()
      reads this
    {
      FiltersActive(departmentQuery, tenureFilter, salaryType)
    }

    /** The body a search with the current state sends. */
    function CurrentBody(): Body
      reads this
    {
      SearchBody(searchQuery, departmentQuery, tenureFilter, salaryType, salaryValue)
    }

    /** `toggleFilterMenu`. */
    method ToggleFilterMenu()
      modifies this
      ensures showFilterMenu == !old(showFilterMenu)
      ensures searchQuery == old(searchQuery) && departmentQuery == old(departmentQuery)
      ensures tenureFilter == old(tenureFilter) && salaryType == old(salaryType) && salaryValue == old(salaryValue)
      ensures selectedClass == old(selectedClass)
    {
      showFilterMenu := !showFilterMenu;
    }

    /** `handleSearchChange`: a new name query, searched with the other
        filters as they are. */
    method HandleSearchChange(query: string) returns (request: Body)
      modifies this
      ensures searchQuery == query
      ensures showFilterMenu == old(showFilterMenu) && departmentQuery == old(departmentQuery)
      ensures tenureFilter == old(tenureFilter) && salaryType == old(salaryType) && salaryValue == old(salaryValue)
      ensures selectedClass == old(selectedClass)
      ensures request == CurrentBody()
    {
      searchQuery := query;
      request := SearchBody(query, departmentQuery, tenureFilter, salaryType, salaryValue);
    }

    /** `handleDepartmentChange`: a new department query, searched with the
        other filters as they are. */
    method HandleDepartmentChange(query: string) returns (request: Body)
      modifies this
      ensures departmentQuery == query
      ensures showFilterMenu == old(showFilterMenu) && searchQuery == old(searchQuery)
      ensures tenureFilter == old(tenureFilter) && salaryType == old(salaryType) && salaryValue == old(salaryValue)
      ensures selectedClass == old(selectedClass)
      ensures request == CurrentBody()
    {
      departmentQuery := query;
      request := SearchBody(searchQuery, query, tenureFilter, salaryType, salaryValue);
    }

    /** `handleTenureChange`: toggles the tenure filter and always
        searches. */
    method HandleTenureChange(value: int) returns (request: Body)
      modifies this
      ensures tenureFilter == Toggle(old(tenureFilter), value)
      ensures showFilterMenu == old(showFilterMenu) && searchQuery == old(searchQuery) && departmentQuery == old(departmentQuery)
      ensures salaryType == old(salaryType) && salaryValue == old(salaryValue)
      ensures selectedClass == old(selectedClass)
      ensures request == CurrentBody()
    {
      var newValue := if tenureFilter == Some(value) then None else Some(value);
      tenureFilter := newValue;
      request := SearchBody(searchQuery, departmentQuery, newValue, salaryType, salaryValue);
    }

    /** `handleSalaryFilterChange`: toggles the comparison, keeps the amount,
        and searches only when a comparison is now set and the amount is not
        empty. */
    method HandleSalaryFilterChange(t: SalaryType) returns (request: Option<Body>)
      modifies this
      ensures salaryType == Toggle(old(salaryType), t)
      ensures salaryValue == old(salaryValue)
      ensures showFilterMenu == old(showFilterMenu) && searchQuery == old(searchQuery) && departmentQuery == old(departmentQuery)
      ensures tenureFilter == old(tenureFilter) && selectedClass == old(selectedClass)
      ensures request.Some? <==> salaryType.Some? && salaryValue != ""
      ensures request.Some? ==> request.value == CurrentBody()
    {
      var newType := if salaryType == Some(t) then None else Some(t);
      salaryType := newType;
      if newType.Some? && salaryValue != "" {
        request := Some(SearchBody(searchQuery, departmentQuery, tenureFilter, newType, salaryValue));
      } else {
        request := None;
      }
    }

    /** `handleSalaryValueChange`: a new amount, searched only when a
        comparison is set and the amount is not empty. */
    method HandleSalaryValueChange(value: string) returns (request: Option<Body>)
      modifies this
      ensures salaryValue == value
      ensures salaryType == old(salaryType)
      ensures showFilterMenu == old(showFilterMenu) && searchQuery == old(searchQuery) && departmentQuery == old(departmentQuery)
      ensures tenureFilter == old(tenureFilter) && selectedClass == old(selectedClass)
      ensures request.Some? <==> salaryType.Some? && value != ""
      ensures request.Some? ==> request.value == CurrentBody()
    {
      salaryValue := value;
      if salaryType.Some? && value != "" {
        request := Some(SearchBody(searchQuery, departmentQuery, tenureFilter, salaryType, value));
      } else {
        request := None;
      }
    }

    /** `clearFilters`: every filter back to unset, the menu closed, and a
        search by the name query alone. */
    method ClearFilters() returns (request: Body)
      modifies this
      ensures departmentQuery == "" && tenureFilter == None && salaryType == None && salaryValue == ""
      ensures !showFilterMenu
      ensures searchQuery == old(searchQuery) && selectedClass == old(selectedClass)
      ensures request == CurrentBody()
      ensures request == [(Name, JString(searchQuery))]
      ensures !HasActiveFilters()
    {
      departmentQuery := "";
      tenureFilter := None;
      salaryType := None;
      salaryValue := "";
      request := SearchBody(searchQuery, "", None, None, "");
      showFilterMenu := false;
    }

    /** A click on a class in the grid selects it, or clears the selection
        when it was already selected. */
    method SelectClass(id: int)
      modifies this
      ensures selectedClass == Toggle(old(selectedClass), id)
      ensures showFilterMenu == old(showFilterMenu) && searchQuery == old(searchQuery) && departmentQuery == old(departmentQuery)
      ensures tenureFilter == old(tenureFilter) && salaryType == old(salaryType) && salaryValue == old(salaryValue)
    {
      selectedClass := if selectedClass == Some(id) then None else Some(id);
    }
  }
}
