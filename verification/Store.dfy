/** The PostgreSQL tables, as far as the engine uses them. */
module Store {
  import opened Text
  import opened Json
  import opened Conditions

  /** conditions is None when the stored JSON does not decode into a condition tree. */
  datatype Rule = Rule(name: string, conditions: Option<Condition>, actions: Value, enabled: bool, owner: string)

  datatype Schedule = Schedule(ruleId: string, cron: string, enabled: bool)

  predicate Matches(s: Schedule, ruleId: string, cron: string) { s.ruleId == ruleId && s.cron == cron }

  type Rules = map<string, Rule>

  type Schedules = map<string, Schedule>

  /** Identity columns hand out the decimal texts of consecutive numbers, so every ID from
      `next` on is still free. */
  ghost predicate IdsBelow<T>(rows: map<string, T>, next: nat) {
    forall n: nat | n >= next :: Decimal(n) !in rows
  }

  class Database {
    /** The row ID the database reads in the text of a request: "007" is row "7"; None if it is no
        number. */
    const readId: string -> Option<string>
    var rules: Rules
    var nextRule: nat
    var schedules: Schedules
    var nextSchedule: nat
    /** Known devices, and whether each has been accepted. */
    var devices: map<string, bool>

    ghost predicate Valid()
      reads this
    {
      && IdsBelow(rules, nextRule) && IdsBelow(schedules, nextSchedule)
      && (forall n: nat :: readId(Decimal(n)) == Some(Decimal(n)))
      && (forall r | r in rules :: readId(r) == Some(r))
    }

    /** INSERT INTO schedules ... RETURNING id. */
    method CreateSchedule(ruleId: string, cron: string, enabled: bool) returns (id: string)
      requires Valid()
      modifies this`schedules, this`nextSchedule
      ensures Valid() && id !in old(schedules)
      ensures schedules == old(schedules)[id := Schedule(ruleId, cron, enabled)]
    {
      id := Decimal(nextSchedule);
      FreshIdsStayFree(schedules, nextSchedule, Schedule(ruleId, cron, enabled));
      schedules := schedules[id := Schedule(ruleId, cron, enabled)];
      nextSchedule := nextSchedule + 1;
    }

    /** A row of the rule with this cron text, if there is one. */
    method FindSchedule(ruleId: string, cron: string) returns (id: Option<string>)
      ensures id.Some? ==> id.value in schedules && Matches(schedules[id.value], ruleId, cron)
      ensures id.None? ==> forall s | s in schedules :: !Matches(schedules[s], ruleId, cron)
    {
      var found := set s | s in schedules && Matches(schedules[s], ruleId, cron);
      if found == {} {
        id := None;
        assert forall s | s in schedules :: s !in found;
      } else {
        var s :| s in found;
        id := Some(s);
      }
    }

    /** INSERT INTO rules; the new ID. */
    method CreateRule(rule: Rule) returns (id: string)
      requires Valid()
      modifies this`rules, this`nextRule
      ensures Valid() && id !in old(rules)
      ensures rules == old(rules)[id := rule]
    {
      id := Decimal(nextRule);
      FreshIdsStayFree(rules, nextRule, rule);
      rules := rules[id := rule];
      nextRule := nextRule + 1;
    }
  }

  lemma {:induction false} FreshIdsStayFree<T>(rows: map<string, T>, next: nat, row: T)
    requires IdsBelow(rows, next)
    ensures Decimal(next) !in rows && IdsBelow(rows[Decimal(next) := row], next + 1)
  {
    forall n: nat | n >= next + 1 ensures Decimal(n) != Decimal(next) {
      if Decimal(n) == Decimal(next) {
        DecimalIsInjective(n, next);
      }
    }
  }
}
