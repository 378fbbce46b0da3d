/** The page component's state and its event handlers. Each `useState` variable is
    a field; each handler is a method that reassigns the fields it sets. */
module App {
  import opened Roster

  class RosterApp {
    var specialists: seq<Specialist>
    var clinics: seq<Clinic>
    var editingId: Option<string>
    var form: Form
    var isAdmin: bool
    var showLogin: bool
    var pinInput: string
    var selectedDay: string
    var searchQuery: string
    var isDark: bool
    /** The stored `theme` value, kept in step with `isDark` by the theme effect. */
    var storedTheme: Option<string>

    /** The day buttons and the form's day select offer only the seven labels; a form
        in edit mode carries the edited id; the stored theme matches the flag. */
    ghost predicate Valid()
      reads this
      ensures Valid() ==> InitialDarkMode(storedTheme) == isDark
    {
      ThemeRestored(isDark);
      && selectedDay in DAYS
      && form.day in DAYS
      && (EditMode(editingId) ==> form.id == editingId)
      && storedTheme == Some(ThemeValue(isDark))
    }

    /** The first render, with the stored theme and lists read in and `weekday` the
        value of `getDay()`, followed by the theme effect. */
    constructor (savedTheme: Option<string>, savedSpecialists: seq<Specialist>,
                 savedClinics: seq<Clinic>, weekday: nat)
      requires weekday < |DAYS|
      ensures Valid()
      ensures isDark == InitialDarkMode(savedTheme) && storedTheme == Some(ThemeValue(isDark))
      ensures specialists == savedSpecialists && clinics == savedClinics
      ensures selectedDay == DAYS[weekday] && searchQuery == ""
      ensures editingId == None && form == BlankForm(DAYS[0])
      ensures !isAdmin && !showLogin && pinInput == ""
    {
      isDark := InitialDarkMode(savedTheme);
      selectedDay := DAYS[weekday];
      searchQuery := "";
      specialists := savedSpecialists;
      clinics := savedClinics;
      isAdmin := false;
      showLogin := false;
      pinInput := "";
      editingId := None;
      form := BlankForm(DAYS[0]);
      storedTheme := Some(ThemeValue(InitialDarkMode(savedTheme)));
    }

    /** The memoised list the page shows. */
    function Visible(): (r: seq<Specialist>)
      reads this
      ensures forall s :: s in r <==> s in specialists && Listed(s, selectedDay, searchQuery)
    {
      FilteredSpecialists(specialists, selectedDay, searchQuery)
    }

    /** Submitting the PIN: the right one opens admin mode, closes the dialog and
        clears the input; any other only raises the alert (`accepted` is false). */
    method AdminLogin() returns (accepted: bool)
      requires Valid() && showLogin
      modifies this`isAdmin, this`showLogin, this`pinInput
      ensures Valid()
      ensures accepted <==> old(pinInput) == ADMIN_PIN
      ensures accepted ==> isAdmin && !showLogin && pinInput == ""
      ensures !accepted ==> isAdmin == old(isAdmin) && showLogin == old(showLogin) && pinInput == old(pinInput)
    {
      accepted := pinInput == ADMIN_PIN;
      if accepted {
        isAdmin := true;
        showLogin := false;
        pinInput := "";
      }
    }

    /** The header button: leaves admin mode, or opens the login dialog. */
    method AdminButton()
      requires Valid()
      modifies this`isAdmin, this`showLogin
      ensures Valid()
      ensures old(isAdmin) ==> !isAdmin && showLogin == old(showLogin)
      ensures !old(isAdmin) ==> !isAdmin && showLogin
    {
      if isAdmin {
        isAdmin := false;
      } else {
        showLogin := true;
      }
    }

    /** The open dialog's close button. */
    method CloseLogin()
      requires Valid() && showLogin
      modifies this`showLogin
      ensures Valid() && !showLogin
    {
      showLogin := false;
    }

    /** Typing into the PIN field of the open dialog. */
    method TypePin(p: string)
      requires Valid() && showLogin
      modifies this`pinInput
      ensures Valid() && pinInput == p
    {
      pinInput := p;
    }

    /** Clicking a day button. */
    method SelectDay(day: string)
      requires Valid() && day in DAYS
      modifies this`selectedDay
      ensures Valid() && selectedDay == day
    {
      selectedDay := day;
    }

    /** Typing into the search box. */
    method SetSearchQuery(q: string)
      requires Valid()
      modifies this`searchQuery
      ensures Valid() && searchQuery == q
    {
      searchQuery := q;
    }

    /** Typing into, or choosing in, one input of the admin form; the day select
        offers only the seven labels. */
    method EditForm(field: FormField, v: string)
      requires Valid() && isAdmin
      requires field == DayField ==> v in DAYS
      modifies this`form
      ensures Valid() && form == SetField(old(form), field, v)
    {
      form := SetField(form, field, v);
    }

    /** An entry's edit button: loads the shown record into the form and marks its id
        as being edited. */
    method StartEditing(spec: Specialist)
      requires Valid() && isAdmin && spec in Visible()
      modifies this`editingId, this`form
      ensures Valid()
      ensures editingId == Some(spec.id) && form == FormOf(spec)
    {
      editingId := Some(spec.id);
      form := FormOf(spec);
    }

    /** The form's cancel button, shown in edit mode: leaves edit mode and resets the form. */
    method CancelEditing()
      requires Valid() && isAdmin && EditMode(editingId)
      modifies this`editingId, this`form
      ensures Valid()
      ensures editingId == None && form == BlankForm(selectedDay)
    {
      editingId := None;
      form := BlankForm(selectedDay);
    }

    /** Submitting the admin form. In edit mode every record with the edited id takes
        the form's fields, no record changes its id or position, and edit mode ends;
        otherwise one record with the form's fields and `newId` is appended. Either
        way the form is reset to the selected day. */
    method SaveSpecialist(newId: string)
      requires Valid() && isAdmin
      modifies this`specialists, this`editingId, this`form
      ensures Valid()
      ensures EditMode(old(editingId)) ==>
        && specialists == ApplyEdit(old(specialists), old(editingId).value, old(form))
        && (forall i :: 0 <= i < |specialists| ==> specialists[i].id == old(specialists)[i].id)
        && editingId == None
      ensures !EditMode(old(editingId)) ==>
        && specialists == old(specialists) + [WithId(old(form), newId)]
        && editingId == old(editingId)
      ensures form == BlankForm(selectedDay)
      ensures EditMode(old(editingId)) ==>
        forall i :: 0 <= i < |specialists| && old(specialists)[i].id == old(editingId).value ==>
          specialists[i].day in DAYS
      ensures !EditMode(old(editingId)) ==> specialists[|specialists| - 1].day in DAYS
      ensures OnKnownDays(old(specialists)) ==> OnKnownDays(specialists)
    {
      if EditMode(editingId) {
        EditKeepsIds(specialists, editingId.value, form);
        specialists := ApplyEdit(specialists, editingId.value, form);
        editingId := None;
      } else {
        specialists := specialists + [WithId(form, newId)];
      }
      form := BlankForm(selectedDay);
    }

    /** A shown entry's delete button, `confirmed` being the answer to the
        confirmation dialog: every record with `id` goes, the rest stay in order, and
        edit mode ends only if it was editing that id. A refusal changes nothing. */
    method RemoveSpecialist(id: string, confirmed: bool)
      requires Valid() && isAdmin
      requires exists s :: s in Visible() && s.id == id
      modifies this`specialists, this`editingId
      ensures Valid()
      ensures confirmed ==> specialists == RemoveById(old(specialists), id)
      ensures confirmed ==> editingId == if old(editingId) == Some(id) then None else old(editingId)
      ensures !confirmed ==> specialists == old(specialists) && editingId == old(editingId)
    {
      if confirmed {
        specialists := RemoveById(specialists, id);
        if editingId == Some(id) {
          editingId := None;
        }
      }
    }

    /** The clinic form: appends a clinic whose id is "c" followed by `stamp`, the
        creation time. The specialists are untouched. */
    method AddClinic(stamp: string, name: string, address: string)
      requires Valid() && isAdmin
      modifies this`clinics
      ensures Valid()
      ensures clinics == old(clinics) + [Clinic("c" + stamp, name, address)]
    {
      clinics := clinics + [Clinic("c" + stamp, name, address)];
    }

    /** A clinic's delete button: filters the clinic list only; specialists keep
        their clinic names. */
    method RemoveClinic(id: string)
      requires Valid() && isAdmin
      modifies this`clinics
      ensures Valid()
      ensures clinics == RemoveClinicById(old(clinics), id)
    {
      clinics := RemoveClinicById(clinics, id);
    }

    /** The theme button, followed by the theme effect that stores the new value. */
    method ToggleTheme()
      requires Valid()
      modifies this`isDark, this`storedTheme
      ensures Valid()
      ensures isDark == !old(isDark) && storedTheme == Some(ThemeValue(isDark))
      ensures InitialDarkMode(storedTheme) == isDark
    {
      isDark := !isDark;
      storedTheme := Some(ThemeValue(isDark));
      ThemeRestored(isDark);
    }
  }

  /** Opening a record for editing and saving the form untouched leaves the roster
      as it was, when no other record shares that record's id. */
  method EditAndSaveUnchanged(app: RosterApp, spec: Specialist, newId: string)
    requires app.Valid() && app.isAdmin && spec.id != "" && spec in app.Visible()
    requires forall t :: t in app.specialists && t.id == spec.id ==> t == spec
    modifies app
    ensures app.Valid()
    ensures app.specialists == old(app.specialists) && app.editingId == None
  {
    app.StartEditing(spec);
    app.SaveSpecialist(newId);
    SaveUnchangedForm(old(app.specialists), spec);
  }
}
