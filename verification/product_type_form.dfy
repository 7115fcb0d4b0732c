/** The product-type form (`ProductTypeFormPage`): the editable attribute list and the
    validation and shaping of the create or update request on submit. */
module ProductTypeForm {
  import opened Common
  import opened Strings

  /** One row of the attribute editor; rows loaded from a stored type carry its id. */
  datatype AttributeRow = AttributeRow(id: Option<int>, name: string)

  /** The text fields of the form. */
  datatype TypeFields = TypeFields(name: string, description: string, parentId: Option<int>)

  datatype TypeFormError = NameRequired | DuplicateAttributes

  /** One attribute of an update request: the row's id (if any) and its trimmed name. */
  datatype AttributeUpdate = AttributeUpdate(id: Option<int>, name: string)

  /** What a valid submit sends: a create request, or an update of the loaded type. */
  datatype TypeRequest =
    | CreateType(name: string, description: Option<string>, parentId: Option<int>, attributes: seq<string>)
    | UpdateType(typeId: int, name: string, description: Option<string>, parentId: Option<int>,
                 updates: seq<AttributeUpdate>)

  predicate NotBlank(a: AttributeRow) {
    Trim(a.name) != ""
  }

  /** `attributes.filter(attr => attr.name.trim())` */
  function ValidRows(rows: seq<AttributeRow>): (r: seq<AttributeRow>)
    ensures forall i :: 0 <= i < |r| ==> r[i] in rows && NotBlank(r[i])
    ensures forall i :: 0 <= i < |rows| && NotBlank(rows[i]) ==> rows[i] in r
  {
    Filter(rows, NotBlank)
  }

  /** `rows.findIndex(a => a.name === name)`, `-1` when there is none. */
  function FindIndexByName(rows: seq<AttributeRow>, name: string): (k: int)
    ensures -1 <= k < |rows|
    ensures k == -1 <==> forall i :: 0 <= i < |rows| ==> rows[i].name != name
    ensures k >= 0 ==> rows[k].name == name && forall i :: 0 <= i < k ==> rows[i].name != name
  {
    if |rows| == 0 then -1
    else if rows[0].name == name then 0
    else
      var k := FindIndexByName(rows[1..], name);
      if k == -1 then -1 else k + 1
  }

  /** The duplicate check of `handleSubmit`: some row is not the first with its name. */
  predicate HasDuplicates(rows: seq<AttributeRow>) {
    exists i :: 0 <= i < |rows| && FindIndexByName(rows, rows[i].name) != i
  }

  /** The check finds a duplicate iff two rows carry exactly the same (untrimmed) name. */
  lemma HasDuplicatesIff(rows: seq<AttributeRow>)
    ensures HasDuplicates(rows) <==> exists i, j :: 0 <= i < j < |rows| && rows[i].name == rows[j].name
  {
    if HasDuplicates(rows) {
      DuplicateFromCheck(rows);
    }
    if exists i, j :: 0 <= i < j < |rows| && rows[i].name == rows[j].name {
      var i, j :| 0 <= i < j < |rows| && rows[i].name == rows[j].name;
      CheckFromDuplicate(rows, i, j);
    }
  }

  lemma DuplicateFromCheck(rows: seq<AttributeRow>)
    requires HasDuplicates(rows)
    ensures exists i, j :: 0 <= i < j < |rows| && rows[i].name == rows[j].name
  {
    var j :| 0 <= j < |rows| && FindIndexByName(rows, rows[j].name) != j;
    var i := FindIndexByName(rows, rows[j].name);
    assert 0 <= i < j && rows[i].name == rows[j].name;
  }

  lemma CheckFromDuplicate(rows: seq<AttributeRow>, i: nat, j: nat)
    requires i < j < |rows| && rows[i].name == rows[j].name
    ensures HasDuplicates(rows)
  {
    var k := FindIndexByName(rows, rows[j].name);
    assert k <= i;
    assert FindIndexByName(rows, rows[j].name) != j;
  }

  /** `formData.description.trim() || undefined` */
  function OptionalText(s: string): (r: Option<string>)
    ensures r.None? <==> Trim(s) == ""
    ensures r.Some? ==> r.value == Trim(s)
  {
    var t := Trim(s);
    if t == "" then None else Some(t)
  }

  function TrimmedNames(rows: seq<AttributeRow>): (r: seq<string>)
    ensures |r| == |rows| && forall i :: 0 <= i < |rows| ==> r[i] == Trim(rows[i].name)
  {
    seq(|rows|, i requires 0 <= i < |rows| => Trim(rows[i].name))
  }

  function TrimmedUpdates(rows: seq<AttributeRow>): (r: seq<AttributeUpdate>)
    ensures |r| == |rows| && forall i :: 0 <= i < |rows| ==> r[i] == AttributeUpdate(rows[i].id, Trim(rows[i].name))
  {
    seq(|rows|, i requires 0 <= i < |rows| => AttributeUpdate(rows[i].id, Trim(rows[i].name)))
  }

  /** The request a valid submit sends for the kept rows `valid`: trimmed name, optional
      trimmed description, the parent id as is, and the trimmed attribute names; an
      update (`editing` is the id of the loaded type) also keeps each row's id. */
  function ShapeRequest(fields: TypeFields, valid: seq<AttributeRow>, editing: Option<int>): (q: TypeRequest)
    ensures q.name == Trim(fields.name)
    ensures q.description == OptionalText(fields.description) && q.parentId == fields.parentId
    ensures q.CreateType? <==> editing.None?
    ensures q.CreateType? ==>
      |q.attributes| == |valid| && forall i :: 0 <= i < |valid| ==> q.attributes[i] == Trim(valid[i].name)
    ensures q.UpdateType? ==>
      q.typeId == editing.value && |q.updates| == |valid| &&
      forall i :: 0 <= i < |valid| ==> q.updates[i].id == valid[i].id && q.updates[i].name == Trim(valid[i].name)
  {
    match editing
    case Some(typeId) =>
      UpdateType(typeId, Trim(fields.name), OptionalText(fields.description), fields.parentId, TrimmedUpdates(valid))
    case None =>
      CreateType(Trim(fields.name), OptionalText(fields.description), fields.parentId, TrimmedNames(valid))
  }

  /** `handleSubmit`: a blank name is refused first, then two kept rows with the same
      name; otherwise the request for the kept rows. `editing` is the id of the loaded
      type when the page edits one (`isEditing && productType`), `None` when it creates. */
  function HandleSubmit(fields: TypeFields, rows: seq<AttributeRow>, editing: Option<int>): (r: Result<TypeRequest, TypeFormError>)
    ensures r == Err(NameRequired) <==> Trim(fields.name) == ""
    ensures r == Err(DuplicateAttributes) <==>
      Trim(fields.name) != "" &&
      exists i, j :: 0 <= i < j < |ValidRows(rows)| && ValidRows(rows)[i].name == ValidRows(rows)[j].name
    ensures r.Ok? ==> r.value == ShapeRequest(fields, ValidRows(rows), editing) && r.value.name != ""
  {
    var valid := ValidRows(rows);
    HasDuplicatesIff(valid);
    if Trim(fields.name) == "" then Err(NameRequired)
    else if HasDuplicates(valid) then Err(DuplicateAttributes)
    else Ok(ShapeRequest(fields, valid, editing))
  }

  /** Every attribute a request carries has a non-blank name. */
  lemma SubmittedNamesNotBlank(fields: TypeFields, rows: seq<AttributeRow>, editing: Option<int>)
    requires HandleSubmit(fields, rows, editing).Ok?
    ensures var q := HandleSubmit(fields, rows, editing).value;
      (q.CreateType? ==> forall i :: 0 <= i < |q.attributes| ==> q.attributes[i] != "") &&
      (q.UpdateType? ==> forall i :: 0 <= i < |q.updates| ==> q.updates[i].name != "")
  {
    var valid := ValidRows(rows);
    var q := ShapeRequest(fields, valid, editing);
    assert HandleSubmit(fields, rows, editing).value == q;
    if q.CreateType? {
      forall i | 0 <= i < |q.attributes| ensures q.attributes[i] != "" {
        assert NotBlank(valid[i]);
      }
    } else {
      forall i | 0 <= i < |q.updates| ensures q.updates[i].name != "" {
        assert NotBlank(valid[i]);
      }
    }
  }

  /** `addAttribute`: one empty-named row without an id at the end. */
  function AddAttribute(rows: seq<AttributeRow>): (r: seq<AttributeRow>)
    ensures |r| == |rows| + 1 && r[..|rows|] == rows && r[|rows|] == AttributeRow(None, "")
  {
    rows + [AttributeRow(None, "")]
  }

  /** `removeAttribute`: drops the row at `index`; an index that matches no row leaves
      the list as it is. */
  function RemoveAttribute(rows: seq<AttributeRow>, index: int): (r: seq<AttributeRow>)
    ensures 0 <= index < |rows| ==> |r| == |rows| - 1 && forall k :: 0 <= k < |r| ==> r[k] == rows[ActualIndex(k, index)]
    ensures !(0 <= index < |rows|) ==> r == rows
  {
    if 0 <= index < |rows| then RemoveAt(rows, index) else rows
  }

  /** Removing the row just added gives the list back. */
  lemma RemoveUndoesAdd(rows: seq<AttributeRow>)
    ensures RemoveAttribute(AddAttribute(rows), |rows|) == rows
  {
    assert AddAttribute(rows)[..|rows|] == rows;
  }

  /** The field `updateAttribute` writes, with its new value. */
  datatype RowEdit = SetId(newId: Option<int>) | SetName(newName: string)

  /** `updateAttribute`: rewrites one field of the row at `index` (the editor calls it
      only for rows on screen). */
  function UpdateAttribute(rows: seq<AttributeRow>, index: nat, edit: RowEdit): (r: seq<AttributeRow>)
    requires index < |rows|
    ensures |r| == |rows|
    ensures forall k :: 0 <= k < |rows| && k != index ==> r[k] == rows[k]
    ensures edit.SetName? ==> r[index].name == edit.newName && r[index].id == rows[index].id
    ensures edit.SetId? ==> r[index].id == edit.newId && r[index].name == rows[index].name
  {
    var row := rows[index];
    var updated := match edit
      case SetId(newId) => row.(id := newId)
      case SetName(newName) => row.(name := newName);
    rows[index := updated]
  }
}
