/** The agenda screen's state and its event handlers: the task list, the form fields
    (title, description and the time picker) and the task being edited, updated one
    setter after another as the handlers do. */
module Agenda {
  import opened JsText
  import opened TimePicker
  import opened TaskStore

  /** What every task in the list looks like: a title that is not blank and a time in
      the canonical `H:MM AM|PM` form. */
  predicate WellFormedTask(t: Task) {
    !IsBlank(t.titulo) && Canonical(t.hora)
  }

  predicate AllWellFormed(s: seq<Task>) {
    forall t :: t in s ==> WellFormedTask(t)
  }

  /** Prepending a well-formed task keeps every task well formed. */
  lemma PrependedWellFormed(s: seq<Task>, t: Task)
    requires AllWellFormed(s) && WellFormedTask(t)
    ensures AllWellFormed([t] + s)
  {
  }

  /** An edit with a title that is not blank and a canonical time keeps every task
      well formed. */
  lemma EditedWellFormed(s: seq<Task>, id: string, titulo: string, descricao: string, hora: string)
    requires AllWellFormed(s)
    requires !IsBlank(titulo) && Canonical(hora)
    ensures AllWellFormed(Edited(s, id, titulo, descricao, hora))
  {
    var r := Edited(s, id, titulo, descricao, hora);
    forall t | t in r ensures WellFormedTask(t) {
      var i :| 0 <= i < |r| && r[i] == t;
      if s[i].id != id {
        assert s[i] in s;
      }
    }
  }

  /** A delete keeps every remaining task well formed. */
  lemma RemovedWellFormed(s: seq<Task>, id: string)
    requires AllWellFormed(s)
    ensures AllWellFormed(Removed(s, id))
  {
    forall t | t in Removed(s, id) ensures WellFormedTask(t) {
      RemovedMember(s, id, t);
    }
  }

  class AgendaScreen {
    var tarefas: seq<Task>
    var titulo: string
    var descricao: string
    var horaSelecionada: int
    var minutoSelecionado: int
    var periodo: Period
    /** The task being edited; None while the form creates a new task. */
    var tarefaEditando: Option<Task>

    /** The list has unique ids and well-formed tasks, and the picker shows a value in
        its domain. */
    ghost predicate Valid()
      reads this
    {
      UniqueIds(tarefas) && AllWellFormed(tarefas) && ValidTime(Picker())
    }

    function Picker(): Time
      reads this
    {
      Time(horaSelecionada, minutoSelecionado, periodo)
    }

    /** The form is empty and the picker is at 12:00 AM. */
    predicate FormCleared()
      reads this
    {
      titulo == "" && descricao == "" && Picker() == DefaultTime
    }

    /** The initial state: no tasks, an empty form at 12:00 AM, nothing being edited. */
    constructor ()
      ensures Valid()
      ensures tarefas == [] && FormCleared() && tarefaEditando == None
    {
      tarefas := [];
      titulo := "";
      descricao := "";
      horaSelecionada := 12;
      minutoSelecionado := 0;
      periodo := AM;
      tarefaEditando := None;
    }

    /** `formatarHoraManual`: the picker's value as the text a task stores, which reads
        back as that same value. */
    function FormatarHoraManual(): (r: string)
      reads this
      ensures ValidTime(Picker()) ==> ParseTime(r) == Some(Picker())
    {
      var t := Picker();
      if ValidTime(t) then ParseFormat(t); Format(t) else Format(t)
    }

    /** `adicionarTarefa`: with a blank title nothing happens. Otherwise, in edit mode the
        edit is mapped over the list and edit mode ends; in create mode a task with the
        caller's fresh id is prepended. Either way the form is then cleared. */
    method AdicionarTarefa(novoId: string)
      requires Valid()
      requires tarefaEditando.None? ==> novoId !in Ids(tarefas)
      modifies this
      ensures Valid()
      ensures IsBlank(old(titulo)) ==> unchanged(this)
      ensures !IsBlank(old(titulo)) && old(tarefaEditando).Some? ==>
        tarefas == Edited(old(tarefas), old(tarefaEditando).value.id,
                          old(titulo), old(descricao), Format(old(Picker())))
      ensures !IsBlank(old(titulo)) && old(tarefaEditando).None? ==>
        tarefas == [Task(novoId, old(titulo), old(descricao), Format(old(Picker())))] + old(tarefas)
      ensures !IsBlank(old(titulo)) ==> FormCleared() && tarefaEditando == None
    {
      TrimEmptyIffBlank(titulo);
      if Trim(titulo) == [] {
        return;
      }
      var hora := FormatarHoraManual();
      FormatIsCanonical(Picker());
      if tarefaEditando.Some? {
        EditedUnique(tarefas, tarefaEditando.value.id, titulo, descricao, hora);
        EditedWellFormed(tarefas, tarefaEditando.value.id, titulo, descricao, hora);
        tarefas := Edited(tarefas, tarefaEditando.value.id, titulo, descricao, hora);
        tarefaEditando := None;
      } else {
        var nova := Task(novoId, titulo, descricao, hora);
        PrependedUnique(tarefas, nova);
        PrependedWellFormed(tarefas, nova);
        tarefas := [nova] + tarefas;
      }
      LimparFormulario();
    }

    /** The form reset shared by the submit and the "+" button: empty title and
        description, the picker back at 12:00 AM; the list and edit mode untouched. */
    method LimparFormulario()
      requires Valid()
      modifies this`titulo, this`descricao, this`horaSelecionada, this`minutoSelecionado, this`periodo
      ensures Valid() && FormCleared()
    {
      titulo := "";
      descricao := "";
      horaSelecionada := 12;
      minutoSelecionado := 0;
      periodo := AM;
    }

    /** `deletarTarefa`: the list without the entries carrying the id. */
    method DeletarTarefa(id: string)
      requires Valid()
      modifies this`tarefas
      ensures Valid()
      ensures tarefas == Removed(old(tarefas), id)
    {
      RemovedUnique(tarefas, id);
      RemovedWellFormed(tarefas, id);
      tarefas := Removed(tarefas, id);
    }

    /** `apagarTodasTarefas`: the list is emptied, whatever it held. */
    method ApagarTodasTarefas()
      requires Valid()
      modifies this`tarefas
      ensures Valid()
      ensures tarefas == []
    {
      tarefas := [];
    }

    /** Tapping a task in the list: edit mode on that task, the form filled from it, and
        the picker set by reading back its stored time, so that submitting without
        changes would store the same time text again. */
    method AbrirEdicao(item: Task)
      requires Valid() && item in tarefas
      modifies this
      ensures Valid()
      ensures tarefas == old(tarefas) && tarefaEditando == Some(item)
      ensures titulo == item.titulo && descricao == item.descricao
      ensures ParseTime(item.hora) == Some(Picker())
      ensures FormatarHoraManual() == item.hora
    {
      assert WellFormedTask(item) by {
        assert AllWellFormed(tarefas);
      }
      var lida := ParseTime(item.hora);
      tarefaEditando := Some(item);
      titulo := item.titulo;
      descricao := item.descricao;
      horaSelecionada := lida.value.hour;
      minutoSelecionado := lida.value.minute;
      periodo := lida.value.period;
    }

    /** The "+" button: create mode, with an empty form at 12:00 AM. */
    method NovaTarefa()
      requires Valid()
      modifies this
      ensures Valid()
      ensures tarefas == old(tarefas) && tarefaEditando == None && FormCleared()
    {
      tarefaEditando := None;
      LimparFormulario();
    }

    /** The hour's up arrow. */
    method HoraMais()
      requires Valid()
      modifies this`horaSelecionada
      ensures Valid()
      ensures horaSelecionada == NextHour(old(horaSelecionada))
    {
      horaSelecionada := NextHour(horaSelecionada);
    }

    /** The hour's down arrow. */
    method HoraMenos()
      requires Valid()
      modifies this`horaSelecionada
      ensures Valid()
      ensures horaSelecionada == PrevHour(old(horaSelecionada))
    {
      horaSelecionada := PrevHour(horaSelecionada);
    }

    /** The minute's up arrow. */
    method MinutoMais()
      requires Valid()
      modifies this`minutoSelecionado
      ensures Valid()
      ensures minutoSelecionado == NextMinute(old(minutoSelecionado))
    {
      minutoSelecionado := NextMinute(minutoSelecionado);
    }

    /** The minute's down arrow. */
    method MinutoMenos()
      requires Valid()
      modifies this`minutoSelecionado
      ensures Valid()
      ensures minutoSelecionado == PrevMinute(old(minutoSelecionado))
    {
      minutoSelecionado := PrevMinute(minutoSelecionado);
    }

    /** The period button. */
    method AlternarPeriodo()
      requires Valid()
      modifies this`periodo
      ensures Valid()
      ensures periodo == TogglePeriod(old(periodo))
    {
      periodo := TogglePeriod(periodo);
    }
  }

  /** A session on a fresh screen: create "Buy milk" at 9:30 AM, open it and rename it
      "Buy bread", then delete it. The edit keeps the id and the stored time, and the
      delete leaves the list empty. */
  method BuyMilkSession() returns (afterCreate: seq<Task>, afterEdit: seq<Task>, afterDelete: seq<Task>)
    ensures afterCreate == [Task("1", "Buy milk", "", "9:30 AM")]
    ensures afterEdit == [Task("1", "Buy bread", "", "9:30 AM")]
    ensures afterDelete == []
  {
    var screen := CreateBuyMilk();
    afterCreate := screen.tarefas;
    RenameToBuyBread(screen);
    afterEdit := screen.tarefas;
    screen.DeletarTarefa("1");
    afterDelete := screen.tarefas;
    RemovedOne(afterEdit, 0);
  }

  /** The first step of the session: a new screen, the title typed, the hour stepped
      down three times and the minute up three times, then submitted. */
  method CreateBuyMilk() returns (screen: AgendaScreen)
    ensures fresh(screen) && screen.Valid()
    ensures screen.tarefas == [Task("1", "Buy milk", "", "9:30 AM")]
  {
    screen := new AgendaScreen();
    screen.titulo := "Buy milk";
    screen.HoraMenos();
    screen.HoraMenos();
    screen.HoraMenos();
    screen.MinutoMais();
    screen.MinutoMais();
    screen.MinutoMais();
    assert screen.Picker() == Time(9, 30, AM);
    NineThirtyText();
    assert !IsBlank(screen.titulo) by { assert !IsSpace(screen.titulo[0]); }
    screen.AdicionarTarefa("1");
  }

  /** The second step: the task opened from the list, its title retyped, submitted. */
  method RenameToBuyBread(screen: AgendaScreen)
    requires screen.Valid() && screen.tarefas == [Task("1", "Buy milk", "", "9:30 AM")]
    modifies screen
    ensures screen.Valid() && screen.tarefas == [Task("1", "Buy bread", "", "9:30 AM")]
  {
    var item := screen.tarefas[0];
    screen.AbrirEdicao(item);
    screen.titulo := "Buy bread";
    assert !IsBlank(screen.titulo) by { assert !IsSpace(screen.titulo[0]); }
    assert Format(screen.Picker()) == "9:30 AM";
    screen.AdicionarTarefa("2");
    EditedOne([item], 0, "Buy bread", "", "9:30 AM");
  }
}
