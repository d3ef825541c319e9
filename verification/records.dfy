/** The entities of the pipeline: the two inputs (barriers and stops, plus
    the stop-to-route membership rows) and the per-stop output record. */
module Records {
  import opened Common

  /** One accessibility barrier row. `severity` is `None` when the CSV cell
      is empty; `isTemporary` keeps the raw text, since only the exact
      string "true" marks a temporary barrier; an empty `neighborhood`
      means the barrier carries no neighbourhood label. */
  datatype Barrier = Barrier(
    lon: real,
    lat: real,
    isTemporary: string,
    severity: Option<int>,
    labelType: string,
    neighborhood: string,
    attributeId: string)

  /** One transit stop row. */
  datatype Stop = Stop(id: string, name: string, lon: real, lat: real)

  /** One row of the stop/route membership table (`STOP_ID`, `ROUTE_NUM`). */
  datatype RouteRow = RouteRow(stopId: string, routeNum: string)

  /** One entry of a stop's severity histogram: `count` barriers at `level`. */
  datatype LevelCount = LevelCount(level: int, count: nat)

  /** The per-stop output record of the stops artifact. */
  datatype StopRecord = StopRecord(
    id: string,
    name: string,
    lat: real,
    lon: real,
    routes: seq<string>,
    neighborhood: Option<string>,
    barrierTypes: seq<string>,
    severity: seq<LevelCount>,
    totalBarriers: nat)
}
