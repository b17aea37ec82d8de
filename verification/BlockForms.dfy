/**
 The forms of a block and the choice between them (archival/gzip.c, flush_block).

 The choice compares whole bytes, and it counts neither the three bits in front of a stored block nor
 the padding behind them, so the form that is sent need not be the shortest.
 */
module BlockForms {
  import opened BitOutput

  datatype Form = StoredForm | StaticForm | DynamicForm

  /** The bytes of each form as flush_block compares them. */
  function FormBytes(form: Form, storedLen: nat, stat: int, opt: int): int {
    match form
    case StoredForm => storedLen + 4
    case StaticForm => (stat + 3 + 7) / 8
    case DynamicForm => (opt + 3 + 7) / 8
  }

  /** The bits that each form takes at position pos. */
  function FormBits(form: Form, pos: nat, storedLen: nat, stat: int, opt: int): int {
    match form
    case StoredForm => 3 + |Padding(pos + 3)| + 8 * (storedLen + 4)
    case StaticForm => 3 + stat
    case DynamicForm => 3 + opt
  }

  /** No form that is available counts fewer bytes. */
  predicate Fewest(form: Form, available: bool, storedLen: nat, stat: int, opt: int) {
    && (form == StoredForm ==> available)
    && (available ==> FormBytes(form, storedLen, stat, opt) <= FormBytes(StoredForm, storedLen, stat, opt))
    && FormBytes(form, storedLen, stat, opt) <= FormBytes(StaticForm, storedLen, stat, opt)
    && FormBytes(form, storedLen, stat, opt) <= FormBytes(DynamicForm, storedLen, stat, opt)
  }

  /** No form that is available is longer by more than that many bits. */
  predicate Within(form: Form, slack: nat, available: bool, pos: nat, storedLen: nat, stat: int, opt: int) {
    && (available ==> FormBits(form, pos, storedLen, stat, opt) <= FormBits(StoredForm, pos, storedLen, stat, opt) + slack)
    && FormBits(form, pos, storedLen, stat, opt) <= FormBits(StaticForm, pos, storedLen, stat, opt) + slack
    && FormBits(form, pos, storedLen, stat, opt) <= FormBits(DynamicForm, pos, storedLen, stat, opt) + slack
  }

  /** The form that is sent: the stored one if it counts no more bytes than the others, the static one if it ties. */
  function Choice(available: bool, storedLen: nat, stat: int, opt: int): Form {
    if available && storedLen + 4 <= Min(FormBytes(StaticForm, storedLen, stat, opt), FormBytes(DynamicForm, storedLen, stat, opt))
    then StoredForm
    else if FormBytes(StaticForm, storedLen, stat, opt) <= FormBytes(DynamicForm, storedLen, stat, opt) then StaticForm
    else DynamicForm
  }

  function Min(a: int, b: int): int {
    if a < b then a else b
  }

  lemma ChoiceIsFewest(available: bool, storedLen: nat, stat: int, opt: int)
    ensures Fewest(Choice(available, storedLen, stat, opt), available, storedLen, stat, opt)
  {
  }

  /** When the form that is sent is the shortest. */
  predicate Counted(available: bool, pos: nat, storedLen: nat, stat: int, opt: int) {
    match Choice(available, storedLen, stat, opt)
    case StoredForm => |Padding(pos + 3)| + 8 * (storedLen + 4) <= Min(stat, opt)
    case StaticForm => stat <= opt
    case DynamicForm => true
  }

  /** The form that is sent is the shortest if and only if what the choice does not count makes no difference. */
  lemma ShortestIff(available: bool, pos: nat, storedLen: nat, stat: int, opt: int)
    ensures Within(Choice(available, storedLen, stat, opt), 0, available, pos, storedLen, stat, opt) <==>
            Counted(available, pos, storedLen, stat, opt)
  {
  }

  /** It is never more than 17 bits longer than the shortest. */
  lemma NearlyShortest(available: bool, pos: nat, storedLen: nat, stat: int, opt: int)
    ensures Within(Choice(available, storedLen, stat, opt), 17, available, pos, storedLen, stat, opt)
  {
  }

  /** That is as much as it can be. */
  lemma SeventeenBits(opt: int)
    requires opt >= 142
    ensures Choice(true, 15, 142, opt) == StoredForm && !Within(StoredForm, 16, true, 6, 15, 142, opt)
  {
  }
}
