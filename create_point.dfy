/**
 * The web form that registers a collection point: the category-selection
 * toggle, the shaping of the IBGE locality lists, and the payload it submits.
 */
module CreatePointPage {
  import opened CategoryParsing

  // ---------------------------------------------------------------------------
  // handleSelectCategory
  // ---------------------------------------------------------------------------

  /** `findIndex(item => item === x)`: the first position of `x`, or -1. */
  function FindIndex(s: seq<int>, x: int): (r: int)
    ensures -1 <= r < |s|
    ensures r == -1 <==> x !in s
    ensures r >= 0 ==> s[r] == x && forall j :: 0 <= j < r ==> s[j] != x
  {
    if s == [] then -1
    else if s[0] == x then 0
    else
      var r := FindIndex(s[1..], x);
      assert forall j :: 1 <= j < |s| ==> s[j] == s[1..][j - 1];
      if r == -1 then -1 else r + 1
  }

  /** `filter(item => item !== x)`. */
  function RemoveAll(s: seq<int>, x: int): (r: seq<int>)
    ensures forall y :: y in r <==> y in s && y != x
    ensures |r| <= |s|
  {
    if s == [] then []
    else
      var rest := RemoveAll(s[1..], x);
      assert forall y :: y in s <==> y == s[0] || y in s[1..];
      if s[0] == x then rest else [s[0]] + rest
  }

  /** `handleSelectCategory(id)`: the new selection. */
  function Toggle(selected: seq<int>, id: int): seq<int>
  {
    if FindIndex(selected, id) >= 0 then RemoveAll(selected, id) else selected + [id]
  }

  /** A selected id is filtered out, every copy of it; an unselected one is
      appended at the end. */
  lemma ToggleCases(selected: seq<int>, id: int)
    ensures id in selected ==> Toggle(selected, id) == RemoveAll(selected, id)
    ensures id !in selected ==> Toggle(selected, id) == selected + [id]
  {
  }

  /** The toggled id changes membership and no other id does. */
  lemma ToggleFlipsMembership(selected: seq<int>, id: int)
    ensures id in Toggle(selected, id) <==> id !in selected
    ensures forall y :: y != id ==> (y in Toggle(selected, id) <==> y in selected)
  {
  }

  /** Filtering keeps the other ids in their order: it distributes over concatenation. */
  lemma {:induction false} RemoveAllConcat(a: seq<int>, b: seq<int>, x: int)
    ensures RemoveAll(a + b, x) == RemoveAll(a, x) + RemoveAll(b, x)
  {
    if a == [] {
      assert a + b == b;
    } else {
      assert (a + b)[1..] == a[1..] + b;
      RemoveAllConcat(a[1..], b, x);
    }
  }

  /** Filtering out an id the list does not hold changes nothing. */
  lemma {:induction false} RemoveAllAbsent(s: seq<int>, x: int)
    requires x !in s
    ensures RemoveAll(s, x) == s
  {
    if s != [] {
      assert s == [s[0]] + s[1..];
      RemoveAllAbsent(s[1..], x);
    }
  }

  /** Toggling an unselected id twice restores the selection. */
  lemma ToggleTwiceAbsent(selected: seq<int>, id: int)
    requires id !in selected
    ensures Toggle(Toggle(selected, id), id) == selected
  {
    RemoveAllConcat(selected, [id], id);
    RemoveAllAbsent(selected, id);
    assert RemoveAll([id][1..], id) == [];
  }

  /** Toggling a selected id twice moves it to the end, once. */
  lemma ToggleTwicePresent(selected: seq<int>, id: int)
    requires id in selected
    ensures Toggle(Toggle(selected, id), id) == RemoveAll(selected, id) + [id]
  {
  }

  predicate NoDuplicates(s: seq<int>)
  {
    forall i, j :: 0 <= i < j < |s| ==> s[i] != s[j]
  }

  lemma {:induction false} RemoveAllNoDuplicates(s: seq<int>, x: int)
    requires NoDuplicates(s)
    ensures NoDuplicates(RemoveAll(s, x))
  {
    if s != [] {
      assert NoDuplicates(s[1..]) by {
        forall i, j | 0 <= i < j < |s[1..]| ensures s[1..][i] != s[1..][j] {
          assert s[1..][i] == s[i + 1] && s[1..][j] == s[j + 1];
        }
      }
      RemoveAllNoDuplicates(s[1..], x);
      assert s[0] !in s[1..] by {
        forall i | 0 <= i < |s[1..]| ensures s[1..][i] != s[0] {
          assert s[1..][i] == s[i + 1];
        }
      }
    }
  }

  /** Selections built by toggling never hold an id twice. */
  lemma ToggleKeepsNoDuplicates(selected: seq<int>, id: int)
    requires NoDuplicates(selected)
    ensures NoDuplicates(Toggle(selected, id))
  {
    if id in selected {
      RemoveAllNoDuplicates(selected, id);
    } else {
      var r := selected + [id];
      forall i, j | 0 <= i < j < |r| ensures r[i] != r[j] {
        if j == |selected| {
          assert r[i] == selected[i];
        }
      }
    }
  }

  /** The selection after a series of clicks, starting from none selected. */
  function ApplyToggles(selected: seq<int>, clicks: seq<int>): seq<int>
    decreases clicks
  {
    if clicks == [] then selected else ApplyToggles(Toggle(selected, clicks[0]), clicks[1..])
  }

  lemma {:induction false} ApplyTogglesNoDuplicates(selected: seq<int>, clicks: seq<int>)
    requires NoDuplicates(selected)
    ensures NoDuplicates(ApplyToggles(selected, clicks))
    decreases clicks
  {
    if clicks != [] {
      ToggleKeepsNoDuplicates(selected, clicks[0]);
      ApplyTogglesNoDuplicates(Toggle(selected, clicks[0]), clicks[1..]);
    }
  }

  // ---------------------------------------------------------------------------
  // IBGE locality lists
  // ---------------------------------------------------------------------------

  /** An item of the IBGE states response, and the form's own shape of it. */
  datatype IbgeUf = IbgeUf(id: int, sigla: string, nome: string)
  datatype Uf = Uf(id: int, acronym: string, name: string)

  /** An item of the IBGE municipalities response, and the form's own shape of it. */
  datatype IbgeCity = IbgeCity(id: int, nome: string)
  datatype City = City(id: int, name: string)

  function SerializeUfs(data: seq<IbgeUf>): seq<Uf>
  {
    seq(|data|, i requires 0 <= i < |data| => Uf(data[i].id, data[i].sigla, data[i].nome))
  }

  function SerializeCities(data: seq<IbgeCity>): seq<City>
  {
    seq(|data|, i requires 0 <= i < |data| => City(data[i].id, data[i].nome))
  }

  /** The renaming loses nothing: the IBGE items can be rebuilt from the list. */
  function UfsAsIbge(ufs: seq<Uf>): seq<IbgeUf>
  {
    seq(|ufs|, i requires 0 <= i < |ufs| => IbgeUf(ufs[i].id, ufs[i].acronym, ufs[i].name))
  }

  function CitiesAsIbge(cities: seq<City>): seq<IbgeCity>
  {
    seq(|cities|, i requires 0 <= i < |cities| => IbgeCity(cities[i].id, cities[i].name))
  }

  /** The UF list keeps the length and order of the response, renames `sigla`
      to `acronym` and `nome` to `name`, and loses nothing. */
  lemma SerializeUfsKeepsItems(data: seq<IbgeUf>)
    ensures |SerializeUfs(data)| == |data|
    ensures forall i :: 0 <= i < |data| ==>
              SerializeUfs(data)[i] == Uf(data[i].id, data[i].sigla, data[i].nome)
    ensures UfsAsIbge(SerializeUfs(data)) == data
  {
  }

  /** The city list keeps the length and order of the response, renames `nome`
      to `name`, and loses nothing. */
  lemma SerializeCitiesKeepsItems(data: seq<IbgeCity>)
    ensures |SerializeCities(data)| == |data|
    ensures forall i :: 0 <= i < |data| ==> SerializeCities(data)[i] == City(data[i].id, data[i].nome)
    ensures CitiesAsIbge(SerializeCities(data)) == data
  {
  }

  // ---------------------------------------------------------------------------
  // handleSubmit
  // ---------------------------------------------------------------------------

  /** The text inputs of the form. */
  datatype FormData = FormData(name: string, email: string, whatsapp: string)

  /** The body posted to `points`. */
  datatype Payload = Payload(
    name: string,
    email: string,
    whatsapp: string,
    uf: string,
    city: string,
    latitude: real,
    longitude: real,
    categories: seq<int>)

  function SubmitPayload(formData: FormData, selectedUf: string, selectedCity: string,
                         selectedPosition: (real, real), selectedCategories: seq<int>): Payload
  {
    Payload(formData.name, formData.email, formData.whatsapp, selectedUf, selectedCity,
            selectedPosition.0, selectedPosition.1, selectedCategories)
  }

  /** `String(array)`: the elements in decimal, joined with commas. */
  function ArrayToString(ids: seq<nat>): string
  {
    Join(seq(|ids|, i requires 0 <= i < |ids| => Decimal(ids[i])))
  }

  /** A non-empty selection, rendered as text, is read back by the server's
      category parser as exactly the selected ids in order; an empty one is
      read as the single id 0. */
  lemma SelectionReadByServer(ids: seq<nat>)
    ensures |ids| >= 1 ==> ParseCategories(ArrayToString(ids)) == seq(|ids|, i requires 0 <= i < |ids| => Int(ids[i]))
    ensures |ids| == 0 ==> ParseCategories(ArrayToString(ids)) == [Int(0)]
  {
    if |ids| >= 1 {
      var pads := seq(|ids|, i => "");
      assert PaddedDecimals(pads, ids) == seq(|ids|, i requires 0 <= i < |ids| => Decimal(ids[i])) by {
        forall i | 0 <= i < |ids| ensures pads[i] + Decimal(ids[i]) == Decimal(ids[i]) {
          assert pads[i] == [];
        }
      }
      ParsePaddedDecimals(pads, ids);
    } else {
      ParseEmpty();
    }
  }

  /** The payload carries the form's text inputs, `uf` and `city` from the two
      selects, latitude then longitude from the marker position, and the
      selected ids in selection order. */
  lemma SubmitPayloadFields(formData: FormData, selectedUf: string, selectedCity: string,
                            selectedPosition: (real, real), clicks: seq<int>)
    ensures var p := SubmitPayload(formData, selectedUf, selectedCity, selectedPosition, ApplyToggles([], clicks));
            && p.name == formData.name && p.email == formData.email && p.whatsapp == formData.whatsapp
            && p.uf == selectedUf && p.city == selectedCity
            && p.latitude == selectedPosition.0 && p.longitude == selectedPosition.1
            && p.categories == ApplyToggles([], clicks)
            && NoDuplicates(p.categories)
  {
    ApplyTogglesNoDuplicates([], clicks);
  }
}
