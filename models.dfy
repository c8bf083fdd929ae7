/**
  The Medicine record of inventory/models.py: its fields, the choice lists of
  its two coded fields, its defaults and length limits, its default ordering,
  its string form and the two date-status properties.

  Dates are day numbers (one per calendar day, consecutive days differ by 1),
  so adding `timedelta(days=90)` is adding 90. The current date is a
  parameter `today` instead of a clock read.
*/
module Models {
  import opened Wrappers

  type Date = int

  /** An instant, for the two audit timestamps. */
  type Timestamp = int

  /** A stock record. `id` is the primary key Django adds to every model. */
  datatype Medicine = Medicine(
    id: nat,
    name: string,
    composition: string,
    administrationType: string,
    category: string,
    countType: string,
    quantity: nat,            // PositiveIntegerField: zero is allowed
    expirationDate: Date,
    remarks: Option<string>,  // TextField(blank=True, null=True)
    createdAt: Timestamp,
    updatedAt: Timestamp
  )

  // Field limits (max_length) as declared on the model.
  const NameMaxLength: nat := 200
  const CompositionMaxLength: nat := 255
  const AdministrationTypeMaxLength: nat := 10
  const CategoryMaxLength: nat := 100
  const CountTypeMaxLength: nat := 20

  /** (stored code, human-readable label) pairs. */
  const AdministrationTypeChoices: seq<(string, string)> :=
    [("oral", "Oral"), ("inj", "Injection"), ("topical", "Topical"), ("inhal", "Inhalation")]

  const CountTypeChoices: seq<(string, string)> :=
    [("tablet", "Tablet"), ("capsule", "Capsule"), ("ampoule", "Ampoule"),
     ("vial", "Vial"), ("bottle", "Bottle"), ("tube", "Tube")]

  const DefaultAdministrationType: string := "oral"
  const DefaultCountType: string := "tablet"
  const DefaultQuantity: nat := 0

  /** Length of the near-expiry window, in days. */
  const NearExpiryDays: int := 90

  predicate IsChoice(choices: seq<(string, string)>, code: string)
  {
    exists i :: 0 <= i < |choices| && choices[i].0 == code
  }

  /** A required CharField: not blank and within its max_length. */
  predicate RequiredText(s: string, maxLength: nat)
  {
    0 < |s| <= maxLength
  }

  /** A coded CharField: one of the choice codes and within its max_length. */
  predicate CodedText(s: string, choices: seq<(string, string)>, maxLength: nat)
  {
    IsChoice(choices, s) && |s| <= maxLength
  }

  /** The constraints the model's field declarations place on a stored record. */
  predicate Valid(m: Medicine)
  {
    && RequiredText(m.name, NameMaxLength)
    && RequiredText(m.composition, CompositionMaxLength)
    && RequiredText(m.category, CategoryMaxLength)
    && CodedText(m.administrationType, AdministrationTypeChoices, AdministrationTypeMaxLength)
    && CodedText(m.countType, CountTypeChoices, CountTypeMaxLength)
  }

  /** Every choice code fits in its field, and each default is one of the codes. */
  lemma ChoicesFitTheirFields()
    ensures forall i :: 0 <= i < |AdministrationTypeChoices| ==>
              |AdministrationTypeChoices[i].0| <= AdministrationTypeMaxLength
    ensures forall i :: 0 <= i < |CountTypeChoices| ==>
              |CountTypeChoices[i].0| <= CountTypeMaxLength
    ensures IsChoice(AdministrationTypeChoices, DefaultAdministrationType)
    ensures IsChoice(CountTypeChoices, DefaultCountType)
  {
    assert AdministrationTypeChoices[0].0 == DefaultAdministrationType;
    assert CountTypeChoices[0].0 == DefaultCountType;
  }

  /**
    A new record as the model creates it from its required fields: the fields
    with a default take it, `remarks` is null and both timestamps are `now`.
  */
  function New(id: nat, name: string, composition: string, category: string,
               expirationDate: Date, now: Timestamp): (m: Medicine)
    ensures m.quantity == 0 && m.remarks == None
    ensures m.administrationType == "oral" && m.countType == "tablet"
    ensures m.createdAt == now && m.updatedAt == now
    ensures m.id == id && m.name == name && m.composition == composition
    ensures m.category == category && m.expirationDate == expirationDate
    ensures Valid(m) <==> && RequiredText(name, NameMaxLength)
                          && RequiredText(composition, CompositionMaxLength)
                          && RequiredText(category, CategoryMaxLength)
  {
    ChoicesFitTheirFields();
    Medicine(id, name, composition, DefaultAdministrationType, category, DefaultCountType,
             DefaultQuantity, expirationDate, None, now, now)
  }

  /** `__str__`: the name followed by the composition in parentheses. */
  function Display(m: Medicine): (s: string)
    ensures |s| == |m.name| + |m.composition| + 3
    ensures s[..|m.name|] == m.name
    ensures s[|m.name|..|m.name| + 2] == " ("
    ensures s[|m.name| + 2..|s| - 1] == m.composition
    ensures s[|s| - 1] == ')'
  {
    m.name + " (" + m.composition + ")"
  }

  /** `is_expired`: the expiration date lies strictly before today. */
  predicate IsExpired(m: Medicine, today: Date)
  {
    m.expirationDate < today
  }

  /**
    `is_near_expiry`: false for an expired record; otherwise whether the
    record expires no later than 90 days from today.
  */
  predicate IsNearExpiry(m: Medicine, today: Date)
    ensures IsNearExpiry(m, today) <==> today <= m.expirationDate <= today + NearExpiryDays
    ensures IsNearExpiry(m, today) ==> !IsExpired(m, today)
  {
    if IsExpired(m, today) then false
    else m.expirationDate <= today + NearExpiryDays
  }

  /** A record expiring today is not expired, and is near expiry. */
  lemma ExpiringTodayIsNotExpired(m: Medicine, today: Date)
    requires m.expirationDate == today
    ensures !IsExpired(m, today) && IsNearExpiry(m, today)
  {
  }

  /** Both ends of the window: day 90 is inside it, day 91 is past it. */
  lemma WindowIsInclusive(m: Medicine, today: Date)
    ensures m.expirationDate == today + 90 ==> IsNearExpiry(m, today)
    ensures m.expirationDate == today + 91 ==> !IsNearExpiry(m, today) && !IsExpired(m, today)
  {
  }

  /**
    Every record is in exactly one of three states: expired, near expiry, or
    expiring more than 90 days from today.
  */
  lemma ExactlyOneStatus(m: Medicine, today: Date)
    ensures IsExpired(m, today) <==> m.expirationDate < today
    ensures var far := m.expirationDate > today + NearExpiryDays;
            (IsExpired(m, today) && !IsNearExpiry(m, today) && !far)
            || (!IsExpired(m, today) && IsNearExpiry(m, today) && !far)
            || (!IsExpired(m, today) && !IsNearExpiry(m, today) && far)
  {
  }

  // ---------------------------------------------------------------------
  // Default ordering: Meta.ordering = ['name', 'composition'].
  // Text is compared character by character by character code, a shorter
  // prefix first.

  predicate TextLe(a: string, b: string)
  {
    if |a| == 0 then true
    else if |b| == 0 then false
    else if a[0] != b[0] then a[0] < b[0]
    else TextLe(a[1..], b[1..])
  }

  lemma {:induction false} TextLeReflexive(a: string)
    ensures TextLe(a, a)
  {
    if |a| > 0 { TextLeReflexive(a[1..]); }
  }

  lemma {:induction false} TextLeTotal(a: string, b: string)
    ensures TextLe(a, b) || TextLe(b, a)
  {
    if |a| > 0 && |b| > 0 && a[0] == b[0] { TextLeTotal(a[1..], b[1..]); }
  }

  lemma {:induction false} TextLeAntisymmetric(a: string, b: string)
    requires TextLe(a, b) && TextLe(b, a)
    ensures a == b
  {
    if |a| > 0 && |b| > 0 {
      TextLeAntisymmetric(a[1..], b[1..]);
      assert a == [a[0]] + a[1..] && b == [b[0]] + b[1..];
    }
  }

  lemma {:induction false} TextLeTransitive(a: string, b: string, c: string)
    requires TextLe(a, b) && TextLe(b, c)
    ensures TextLe(a, c)
  {
    if |a| > 0 && |b| > 0 && |c| > 0 && a[0] == b[0] && b[0] == c[0] {
      TextLeTransitive(a[1..], b[1..], c[1..]);
    }
  }

  /** Whether `a` may come before `b` in the default (name, composition) ordering. */
  predicate DefaultLe(a: Medicine, b: Medicine)
  {
    if a.name != b.name then TextLe(a.name, b.name)
    else TextLe(a.composition, b.composition)
  }

  /** The default ordering is a total preorder. */
  lemma DefaultOrderingIsTotalPreorder(a: Medicine, b: Medicine, c: Medicine)
    ensures DefaultLe(a, a)
    ensures DefaultLe(a, b) || DefaultLe(b, a)
    ensures DefaultLe(a, b) && DefaultLe(b, c) ==> DefaultLe(a, c)
  {
    TextLeReflexive(a.composition);
    TextLeTotal(a.name, b.name);
    TextLeTotal(a.composition, b.composition);
    if DefaultLe(a, b) && DefaultLe(b, c) {
      if a.name == b.name && b.name == c.name {
        TextLeTransitive(a.composition, b.composition, c.composition);
      } else if a.name == c.name {
        // a.name precedes b.name and b.name precedes a.name: impossible
        TextLeAntisymmetric(a.name, b.name);
      } else {
        TextLeReflexive(a.name);
        TextLeReflexive(b.name);
        TextLeTransitive(a.name, b.name, c.name);
      }
    }
  }

  /** Two records tie in the default ordering exactly when name and composition agree. */
  lemma DefaultTiesShareNameAndComposition(a: Medicine, b: Medicine)
    ensures DefaultLe(a, b) && DefaultLe(b, a) <==>
            a.name == b.name && a.composition == b.composition
  {
    TextLeReflexive(a.composition);
    if DefaultLe(a, b) && DefaultLe(b, a) {
      if a.name != b.name {
        TextLeAntisymmetric(a.name, b.name);
      } else {
        TextLeAntisymmetric(a.composition, b.composition);
      }
    }
  }
}
