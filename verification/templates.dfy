/** Creating a credential template (src/service/vc.rs): a name already in
    use is refused, otherwise a template with the given name, purpose and
    fields is stored. The template type and its table are defined outside
    the files modelled here; their lookup is taken to be the same `LIMIT 1`
    query as the users table's. The new id and the current time are passed in. */
module Templates {
  import opened Wrappers
  import opened Errors
  import opened Rows

  datatype VcTplt = VcTplt(id: string, name: string, purpose: string, fields: string, createdAt: int, updatedAt: int)
  datatype VcTpltInput = VcTpltInput(name: string, purpose: string, fields: string)

  /** The templates table, in the order the database returns its rows. */
  type Templates = seq<VcTplt>

  /** A call's outcome: the table afterwards and the call's own result. */
  datatype Step = Step(templates: Templates, result: Result<VcTplt, Error>)

  function Named(name: string): VcTplt -> bool {
    (t: VcTplt) => t.name == name
  }

  /** `find_by_name`: the first template with that name; none makes `fetch_one` fail. */
  function FindByName(templates: Templates, name: string): (r: Result<VcTplt, Error>)
    ensures r.Ok? <==> exists i :: 0 <= i < |templates| && templates[i].name == name
    ensures r.Ok? ==> r.value in templates && r.value.name == name
    ensures r.Err? ==> r.error == SqlxError(RowNotFound)
  {
    match First(templates, Named(name))
    case Some(k) => Ok(templates[k])
    case None => Err(SqlxError(RowNotFound))
  }

  /** `VcTpltService::create`: refused with `DuplicateVcTpltName`, the table
      unchanged, when a template of that name exists; otherwise one template
      carrying the input's name, purpose and fields is added. */
  function Create(templates: Templates, input: VcTpltInput, id: string, now: int): (s: Step)
    ensures s.result.Err? <==> exists i :: 0 <= i < |templates| && templates[i].name == input.name
    ensures s.result.Err? ==> s.result.error == DuplicateVcTpltName && s.templates == templates
    ensures s.result.Ok? ==> s.templates == templates + [s.result.value]
    ensures s.result.Ok? ==> s.result.value.name == input.name && s.result.value.purpose == input.purpose
    ensures s.result.Ok? ==> s.result.value.fields == input.fields && s.result.value.id == id
  {
    if FindByName(templates, input.name).Ok? then Step(templates, Err(DuplicateVcTpltName))
    else
      var t := VcTplt(id, input.name, input.purpose, input.fields, now, now);
      Step(templates + [t], Ok(t))
  }

  /** After a successful create, a second create with the same name is
      refused, whatever its purpose and fields. */
  lemma CreateThenDuplicateRefused(templates: Templates, input: VcTpltInput, again: VcTpltInput,
                                   id: string, id': string, now: int, now': int)
    requires Create(templates, input, id, now).result.Ok? && again.name == input.name
    ensures Create(Create(templates, input, id, now).templates, again, id', now').result == Err(DuplicateVcTpltName)
  {
    var s := Create(templates, input, id, now);
    assert s.templates[|templates|] == s.result.value;
  }

  /** A created template is the one a lookup by its name finds afterwards. */
  lemma CreateThenFind(templates: Templates, input: VcTpltInput, id: string, now: int)
    requires Create(templates, input, id, now).result.Ok?
    ensures FindByName(Create(templates, input, id, now).templates, input.name) == Create(templates, input, id, now).result
  {
    var s := Create(templates, input, id, now);
    FirstAfterAppend(templates, s.result.value, Named(input.name));
    assert First(templates, Named(input.name)).None?;
  }
}
