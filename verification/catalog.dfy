/**
 * The location catalog: fifteen locations, in declaration order, each with
 * the six roles handed out to the players who are not the spy.
 */
module Catalog {
  import opened Base
  import opened OrderedMap

  /** The role given to the spy; no location lists it. */
  const SpyRole: string := "Spy"

  /** `LOCATIONS`, an object literal: keys in declaration order. */
  const Locations: seq<(string, seq<string>)> := [
    ("Airport", ["Pilot", "Passenger", "Security Officer", "Flight Attendant", "Customs Officer", "Air Traffic Controller"]),
    ("Beach", ["Lifeguard", "Surfer", "Tourist", "Vendor", "Beach Cleaner", "Photographer"]),
    ("Casino", ["Dealer", "Gambler", "Bartender", "Security", "Waitress", "Manager"]),
    ("Hospital", ["Doctor", "Nurse", "Patient", "Surgeon", "Receptionist", "Ambulance Driver"]),
    ("Space Station", ["Scientist", "Astronaut", "Engineer", "Commander", "Pilot", "Researcher"]),
    ("School", ["Teacher", "Student", "Principal", "Janitor", "Librarian", "Coach"]),
    ("Restaurant", ["Chef", "Waiter", "Customer", "Manager", "Dishwasher", "Host"]),
    ("Bank", ["Teller", "Customer", "Manager", "Security Guard", "Loan Officer", "Janitor"]),
    ("Cruise Ship", ["Captain", "Passenger", "Waiter", "Engineer", "Entertainment Staff", "Security"]),
    ("Hotel", ["Guest", "Receptionist", "Bellhop", "Manager", "Housekeeper", "Bartender"]),
    ("Movie Theater", ["Moviegoer", "Projectionist", "Usher", "Concession Worker", "Manager", "Janitor"]),
    ("Library", ["Librarian", "Student", "Author", "Janitor", "Security Guard", "Volunteer"]),
    ("Police Station", ["Police Officer", "Detective", "Criminal", "Lawyer", "Reporter", "Dispatcher"]),
    ("Subway", ["Passenger", "Tourist", "Conductor", "Security Officer", "Musician", "Ticket Inspector"]),
    ("Art Museum", ["Visitor", "Security Guard", "Artist", "Curator", "Guide", "Student"])
  ]

  /** Number of roles at every location. */
  const RolesPerLocation: nat := 6

  /** `Object.keys(LOCATIONS)`. */
  function Names(): (ns: seq<string>)
    ensures |ns| == |Locations|
    ensures forall i :: 0 <= i < |Locations| ==> ns[i] == Locations[i].0
  {
    KeysOf(Locations)
  }

  /** The keys of a list of entries, in order. */
  function KeysOf(entries: seq<(string, seq<string>)>): (ks: seq<string>)
    ensures |ks| == |entries| && forall i :: 0 <= i < |entries| ==> ks[i] == entries[i].0
  {
    if entries == [] then [] else KeysOf(entries[..|entries| - 1]) + [entries[|entries| - 1].0]
  }

  /** Each location's list: six roles, none repeated, none the spy's. */
  predicate WellFormedRoles(roles: seq<string>) {
    |roles| == RolesPerLocation && NoDup(roles) && SpyRole !in roles
  }

  /** The catalog has fifteen locations with distinct names and well-formed role lists. */
  lemma CatalogShape()
    ensures |Locations| == 15
    ensures DistinctKeys(Locations)
    ensures forall i :: 0 <= i < |Locations| ==> WellFormedRoles(Locations[i].1)
  {
    NamesDistinct();
    forall i | 0 <= i < |Locations| ensures WellFormedRoles(Locations[i].1) {
      RolesAt(i);
    }
  }

  /** No two locations share a name. */
  lemma NamesDistinct()
    ensures DistinctKeys(Locations)
  {
    // Length and first two letters already tell the fifteen names apart.
    var tags := NameTags();
    forall i | 0 <= i < |Locations| ensures |Locations[i].0| >= 2 && Tag(Locations[i].0) == tags[i] {
    }
    TagsDistinct();
  }

  /**
   * Length and first two letters of a name, as one number. `Tag`, `NameTags`
   * and `TagsDistinct` are proof helpers only: they carry no meaning from
   * the catalog and exist to check distinct names cheaply.
   */
  function Tag(name: string): int
    requires |name| >= 2
  {
    |name| * 65536 + name[0] as int * 256 + name[1] as int
  }

  /**
   * The tags of the location names, in catalog order: entry `i` is
   * `Tag(Locations[i].0)`, which NamesDistinct checks entry by entry.
   */
  function NameTags(): (tags: seq<int>)
    ensures |tags| == 15
  {
    [
      475497,   // Tag("Airport")
      344677,   // Tag("Beach")
      410465,   // Tag("Casino")
      542831,   // Tag("Hospital")
      873328,   // Tag("Space Station")
      414563,   // Tag("School")
      676453,   // Tag("Restaurant")
      279137,   // Tag("Bank")
      738162,   // Tag("Cruise Ship")
      346223,   // Tag("Hotel")
      871791,   // Tag("Movie Theater")
      478313,   // Tag("Library")
      938095,   // Tag("Police Station")
      414581,   // Tag("Subway")
      672114    // Tag("Art Museum")
    ]
  }

  lemma TagsDistinct()
    ensures forall i, j :: 0 <= i < j < |NameTags()| ==> NameTags()[i] != NameTags()[j]
  {
  }

  /** Every location's role list is well formed (checked three locations at a time). */
  lemma RolesAt(i: nat)
    requires i < |Locations|
    ensures WellFormedRoles(Locations[i].1)
  {
    if i < 3 {
      RolesGroupOne(i);
    } else if i < 6 {
      RolesGroupTwo(i);
    } else if i < 9 {
      RolesGroupThree(i);
    } else if i < 12 {
      RolesGroupFour(i);
    } else {
      RolesGroupFive(i);
    }
  }

  lemma RolesGroupOne(i: nat)
    requires 0 <= i < 3
    ensures WellFormedRoles(Locations[i].1)
  {
  }

  lemma RolesGroupTwo(i: nat)
    requires 3 <= i < 6
    ensures WellFormedRoles(Locations[i].1)
  {
  }

  lemma RolesGroupThree(i: nat)
    requires 6 <= i < 9
    ensures WellFormedRoles(Locations[i].1)
  {
  }

  lemma RolesGroupFour(i: nat)
    requires 9 <= i < 12
    ensures WellFormedRoles(Locations[i].1)
  {
  }

  lemma RolesGroupFive(i: nat)
    requires 12 <= i < 15
    ensures WellFormedRoles(Locations[i].1)
  {
  }

  /** `LOCATIONS[Object.keys(LOCATIONS)[i]]` is the i-th role list. */
  lemma {:induction false} LookupByName(i: nat)
    requires i < |Locations|
    ensures Get(Locations, Names()[i]) == Some(Locations[i].1)
  {
    CatalogShape();
    GetAt(Locations, i);
  }
}
