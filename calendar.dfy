/** The program state `model` and its key handling in `Update`: the shown month
    `(anio, mes)`, its grid `dias` and its title `mesActual`; the left and right
    keys move one month back or forward, rolling over the year, the quit keys
    leave everything as it is, and every other key rebuilds grid and title. */
module Calendar {
  import opened Dates
  import opened Format
  import opened Grid

  /** A `(year, month)` pair naming one calendar month. */
  datatype CalendarMonth = CalendarMonth(year: int, month: int)

  predicate ValidMonth(cm: CalendarMonth)
  {
    January <= cm.month <= December
  }

  /** The month before `cm`; January goes back to December of the previous year. */
  function Previous(cm: CalendarMonth): (r: CalendarMonth)
    requires ValidMonth(cm)
    ensures ValidMonth(r)
  {
    if cm.month == January then CalendarMonth(cm.year - 1, December)
    else CalendarMonth(cm.year, cm.month - 1)
  }

  /** The month after `cm`; December goes on to January of the next year. */
  function Next(cm: CalendarMonth): (r: CalendarMonth)
    requires ValidMonth(cm)
    ensures ValidMonth(r)
  {
    if cm.month == December then CalendarMonth(cm.year + 1, January)
    else CalendarMonth(cm.year, cm.month + 1)
  }

  /** Months counted from January of year 0: the position of `cm` on the time line. */
  function MonthIndex(cm: CalendarMonth): int
  {
    12 * cm.year + cm.month - 1
  }

  /** A valid month is determined by its position on the time line. */
  lemma MonthIndexInjective(a: CalendarMonth, b: CalendarMonth)
    requires ValidMonth(a) && ValidMonth(b) && MonthIndex(a) == MonthIndex(b)
    ensures a == b
  {
  }

  /** `Next` and `Previous` move exactly one month along the time line. */
  lemma StepsAreOneMonth(cm: CalendarMonth)
    requires ValidMonth(cm)
    ensures MonthIndex(Next(cm)) == MonthIndex(cm) + 1
    ensures MonthIndex(Previous(cm)) == MonthIndex(cm) - 1
  {
  }

  /** Going forward and then back, or back and then forward, returns to the start. */
  lemma {:induction false} NextPreviousRoundTrip(cm: CalendarMonth)
    requires ValidMonth(cm)
    ensures Previous(Next(cm)) == cm
    ensures Next(Previous(cm)) == cm
  {
    StepsAreOneMonth(cm);
    StepsAreOneMonth(Next(cm));
    StepsAreOneMonth(Previous(cm));
    MonthIndexInjective(Previous(Next(cm)), cm);
    MonthIndexInjective(Next(Previous(cm)), cm);
  }

  /** Year rollover at both ends of the year. */
  lemma YearRollover(y: int)
    ensures Next(CalendarMonth(y, December)) == CalendarMonth(y + 1, January)
    ensures Previous(CalendarMonth(y, January)) == CalendarMonth(y - 1, December)
  {
  }

  /** `fmt.Sprintf("%s %d", mes, anio)`: the English month name, a space and the year. */
  function Title(y: int, m: int): string
    requires January <= m <= December
  {
    MonthName(m) + " " + FormatInt(y)
  }

  /** The title names the month and the year unambiguously. */
  lemma TitleInjective(y1: int, m1: int, y2: int, m2: int)
    requires January <= m1 <= December && January <= m2 <= December
    requires Title(y1, m1) == Title(y2, m2)
    ensures y1 == y2 && m1 == m2
  {
    SplitAtFirstSpace(MonthName(m1), FormatInt(y1), MonthName(m2), FormatInt(y2));
    MonthNameInjective(m1, m2);
    FormatIntInjective(y1, y2);
  }

  /** A word without spaces, a space and a rest: the first space separates them. */
  lemma SplitAtFirstSpace(a: string, x: string, b: string, y: string)
    requires ' ' !in a && ' ' !in b
    requires a + " " + x == b + " " + y
    ensures a == b && x == y
  {
    var t := a + " " + x;
    FirstSpaceAfterWord(a, x);
    FirstSpaceAfterWord(b, y);
    assert a == t[..|a|] == b;
    assert x == t[|a| + 1..] == y;
  }

  /** Position of the first space in `s`, or `|s|` if there is none. */
  function FirstSpace(s: string): (i: nat)
    ensures i <= |s|
  {
    if s == [] || s[0] == ' ' then 0 else 1 + FirstSpace(s[1..])
  }

  lemma {:induction false} FirstSpaceAfterWord(a: string, rest: string)
    requires ' ' !in a
    ensures FirstSpace(a + " " + rest) == |a|
  {
    if a != [] {
      assert a[0] in a;
      assert (a + " " + rest)[1..] == a[1..] + " " + rest;
      assert forall c :: c in a[1..] ==> c in a;
      FirstSpaceAfterWord(a[1..], rest);
    }
  }

  /** The messages `Update` receives: key presses by their name, and everything else. */
  datatype Msg = KeyMsg(key: string) | OtherMsg

  predicate IsRetreatKey(key: string)
  {
    key == "left" || key == "h"
  }

  predicate IsAdvanceKey(key: string)
  {
    key == "right" || key == "l"
  }

  predicate IsQuitKey(key: string)
  {
    key == "q" || key == "ctrl+c"
  }

  /** The program state: the title, the grid and the month shown. */
  class Model {
    var mesActual: string
    var dias: array2<string>
    var anio: int
    var mes: int

    /** The month is a real month and grid and title are those of that month. */
    ghost predicate Valid()
      reads this, dias
    {
      January <= mes <= December &&
      Rows(dias) == MonthGrid(anio, mes) &&
      mesActual == Title(anio, mes)
    }

    function Current(): CalendarMonth
      reads this
    {
      CalendarMonth(anio, mes)
    }

    /** `initialModel`, with the month read from the clock passed in instead. */
    constructor (anio: int, mes: int)
      requires January <= mes <= December
      ensures Valid()
      ensures this.anio == anio && this.mes == mes
    {
      var grid := BuildMonthGrid(anio, mes);
      this.mesActual := Title(anio, mes);
      this.dias := grid;
      this.anio := anio;
      this.mes := mes;
    }

    /** The "left"/"h" branch: one month back, rolling into December of the previous year. */
    method RetreatMonth()
      requires January <= mes <= December
      modifies this`anio, this`mes
      ensures Current() == Previous(old(Current()))
    {
      mes := mes - 1;
      if mes < January {
        mes := December;
        anio := anio - 1;
      }
    }

    /** The "right"/"l" branch: one month forward, rolling into January of the next year. */
    method AdvanceMonth()
      requires January <= mes <= December
      modifies this`anio, this`mes
      ensures Current() == Next(old(Current()))
    {
      mes := mes + 1;
      if mes > December {
        mes := January;
        anio := anio + 1;
      }
    }

    /** Rebuild the grid and the title from the month now shown. */
    method Regenerate()
      requires January <= mes <= December
      modifies this`dias, this`mesActual
      ensures Valid()
    {
      dias := BuildMonthGrid(anio, mes);
      mesActual := Title(anio, mes);
    }

    /** `Update`; the result says whether the program is told to quit. */
    method Update(msg: Msg) returns (quit: bool)
      requires Valid()
      modifies this
      ensures Valid()
      ensures quit <==> msg.KeyMsg? && IsQuitKey(msg.key)
      ensures quit || msg.OtherMsg? ==>
                anio == old(anio) && mes == old(mes) && dias == old(dias) && mesActual == old(mesActual)
      ensures msg.KeyMsg? && IsRetreatKey(msg.key) ==> Current() == Previous(old(Current()))
      ensures msg.KeyMsg? && IsAdvanceKey(msg.key) ==> Current() == Next(old(Current()))
      ensures msg.KeyMsg? && !IsRetreatKey(msg.key) && !IsAdvanceKey(msg.key) ==> Current() == old(Current())
    {
      quit := false;
      if msg.KeyMsg? {
        var key := msg.key;
        if IsRetreatKey(key) {
          RetreatMonth();
        } else if IsAdvanceKey(key) {
          AdvanceMonth();
        } else if IsQuitKey(key) {
          quit := true;
          return;
        }
        Regenerate();
      }
    }
  }

  /** Starting at January 2024, three steps forward reach April 2024 and one step
      back then gives March 2024, with grid and title kept in step; a quit key
      afterwards changes nothing. This replays the key handling of cmd/main.go:64-93. */
  method NavigationScenario()
  {
    var m := new Model(2024, 1);
    var quit := m.Update(KeyMsg("right"));
    quit := m.Update(KeyMsg("l"));
    quit := m.Update(KeyMsg("right"));
    assert m.Current() == CalendarMonth(2024, 4);
    quit := m.Update(KeyMsg("left"));
    assert m.Current() == CalendarMonth(2024, 3);
    assert m.mesActual == Title(2024, 3) && Rows(m.dias) == MonthGrid(2024, 3);
    quit := m.Update(KeyMsg("q"));
    assert quit && m.Current() == CalendarMonth(2024, 3);
  }
}
