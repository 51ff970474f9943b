/** The records the extension stores (src/entities/activity.ts,
    src/entities/mission.ts, and the `{ url }` permission record), plus the
    element description the tracker produces. Primary keys are carried by
    `Store.Row`, so `Activity`, `Mission` and `URLPermission` are rows. */
module Entities {
  import opened Results
  import opened Store

  /** One `[name, value]` pair of an element's attribute list. */
  datatype Attribute = Attribute(name: string, value: string)

  /** An attribute that reads back unambiguously from `name="value"`,
      whether in a selector or in markup: no `=` in the name and no `"` in
      the value. */
  predicate AttributeSafe(a: Attribute)
  {
    (forall i :: 0 <= i < |a.name| ==> a.name[i] != '=') && (forall i :: 0 <= i < |a.value| ==> a.value[i] != '"')
  }

  /** A reader's result with `a` read in front of what the rest gave. */
  function PrependAttribute(a: Attribute, rest: Option<seq<Attribute>>): Option<seq<Attribute>>
  {
    match rest
    case None => None
    case Some(more) => Some([a] + more)
  }

  /** `{ elementName, attributes }`: a clicked element as the tracker describes it. */
  datatype TargetElement = TargetElement(elementName: string, attributes: seq<Attribute>)

  /** The only action the tracker records: `"click"`. */
  datatype Action = Click

  datatype ActivityFields = ActivityFields(
    action: Action,
    url: string,
    activityTitle: string,
    elementName: string,
    attributes: seq<Attribute>,
    selector: string)

  type Activity = Row<ActivityFields>

  /** A mission record: the entity's fields plus those the event handler
      writes (running, missionTime, startTime, endTime). */
  datatype MissionFields = MissionFields(
    name: string,
    missionTime: string,
    active: bool,
    running: bool,
    startTime: Option<int>,
    endTime: Option<int>,
    activities: seq<Activity>)

  type Mission = Row<MissionFields>

  datatype PermissionFields = PermissionFields(url: string)

  type URLPermission = Row<PermissionFields>

  /** Key of the unique "url" index on permissions. */
  function PermissionUrl(p: PermissionFields): string { p.url }

  /** Key of the unique "name" index on missions. */
  function MissionName(m: MissionFields): string { m.name }
}
