# Vessel tracking and emissions reporting: a verified model

This project models the algorithms and protocols at the core of a Go service that tracks
vessels and reports their emissions (MRV), and proves what they guarantee over all inputs and
all runs. Each module follows one component. Loops and state updates of the service are
imperative methods, proved against specification functions; the guarantees are lemmas about those
functions. A SQL transaction is one atomic step; a failed one changes nothing, except what it has
already sent to the outside.

Check everything with `dafny verify dfyconfig.toml`.

| modules | component |
|---|---|
| FenceGeometry | point in polygon over integer micro-degrees, compared with the exact rational rule |
| FenceEngine, FenceTraces, FenceDwell, FenceCrossings | the ENTER / EXIT / DWELL engine over whole report streams: its traces, and exactly when each event fires |
| FuelAllocation, VoyageEmissions, EmissionsConservation, EmissionsMeaning | time-proportional fuel allocation, voyage and annual CO2, conservation between the two, and what the figures mean |
| AnnualReports, ReportHistory, Outbox, Cii | the maker/checker report lifecycle, the transactional outbox, the CII parser and rating |
| Seasonal, Forecast, ForecastMeaning, BacktestMeaning | the congestion forecast over exact reals, what it serves, and what its scores are means of |
| Crc16, CrcFcs, Gt06, Gt06Frames, Gt06Damage | the CRC-16/X.25 checksum, the GT06 frame reader and reply writer, the frames they accept and the damage they detect |
| Hub, HubEndings | the sharded event hub as a state machine over its lock-protected sections; how subscriptions end |
| DeviceRegistry, DeviceRuns, DeviceReads, DeviceHistory | device requests, key epochs with a grace window, authentication at ingest over two reads, and where every row comes from |
| PcsImporter, PcsRuns, PcsPipeline | the composite-cursor importer, and what the ingest pipeline stores of what it delivers |
| VesselStatic, VesselHistory | the SCD-2 history of vessel static data, per upsert and over whole runs |
| Evidence, Inspections, InspectionHistory, LateDeficiencies | the hash-chained evidence log; detention, release and deficiencies, their whole lives, and what comes after the release |
| Text, Options | white-space trimming, string order and identifiers; the optional value |

What the proofs show about the code, where its promises and its behaviour part ways:

- `Contains` is not the even-odd rule near an edge: the truncating division errs by less than 3/2
  micro-degree, differently by edge direction. The exact windows are characterised, the answer is
  even-odd exactly when an even number of edges is misjudged, and a triangle with a misplaced point
  is given.
- The allocation bound holds for every fuel amount and every set of disjoint windows if and only if
  the reporting period fits a Go duration (about 292 years); beyond that the period length saturates.
- The outbox table's CHECK (db/migrations/0012_mrv_core.sql:283) does not list
  `mrv.voyage-emissions.v1`, although the contract table does: that event is always refused. Since a
  voyage's computation ends with its enqueue, a ship's summary succeeds, with the table as it is, if
  and only if it keeps no voyage.
- Authentication reads the device row and the key row in two statements, so its "inconsistency"
  branch is reachable: it is taken exactly when a rotation installed precisely the presented epoch
  between the reads and nothing rotated or retired the device after that. An accepted epoch would
  also have been accepted at the first read, except one that was installed and demoted again between
  the reads.
- The importer does not advance past a batch that ends in a row at the zero instant; delivery is
  exactly once for every batch size if and only if no such row is waiting. `Run` starts five minutes
  before now, so this needs a start cursor that `Run` itself never uses.
- A row is delivered when the ingest call returns no error, which is not the same as stored: the
  deduplication key, of whole seconds, is set before the insert. A row is stored if and only if some
  call with it was neither quarantined nor a duplicate and its insert succeeded; a row whose first
  insert failed, or the second row of a vessel within one second, is acknowledged and lost.
- The checksum is sent high byte first although the register is reflected, so the burst guarantee
  does not extend over it: damage within two adjacent bytes of a frame goes unseen in exactly one
  case, 0x91 in the last serial byte together with 0x85 in the first checksum byte.
- The backtest scores origins shorter than the minimum history unless there are at least twelve
  observations.
- The SCD-2 closing statement selects by report id alone: an upsert keeps every vessel's history
  tiled if and only if it does not close another vessel's open row with the same id. A run is given
  in which it does. Repeated ids of one vessel do no harm.
- An evidence chain verifies, short of a chain hash equal to the genesis value, if and only if every
  append got a greater (collected_at, evidence_id) than all earlier ones. `collected_at` is the transaction's start, not the moment it gets the case
  lock, so two plain appends can produce a chain that the verifier rejects.
- `RecordDeficiency` does not look at the inspection's state: released inspections stay free of open
  CRITICAL deficiencies in a run if and only if no step records one after the release; a run that
  does is given.

## Model

| member | source | states |
|---|---|---|
| FenceGeometry.ValidateGeometry | internal/fence/engine.go:38-54 | accepts exactly the closed rings of four or more in-range vertices, and names the first offending vertex |
| FenceGeometry.Contains | internal/fence/engine.go:59-88 | the ray-cast loop returns the machine-arithmetic verdict `Inside`, to which the theorems below apply |
| FenceGeometry.BoundaryHasNoOverflow | internal/fence/engine.go:90-98 | for any int32 point, int32 and int64 wrap-around never changes the boundary test |
| FenceGeometry.ToggleHasNoOverflow | internal/fence/engine.go:71-84 | nor the ray test of an edge |
| FenceGeometry.SegmentTestIsExact | internal/fence/engine.go:90-98 | the integer segment test holds if and only if the point is a convex combination of the end points |
| FenceGeometry.RoundingError | internal/fence/engine.go:74-81 | the rounded crossing differs from the exact one by less than 3/2, and by less than 1/2 on the side that the edge direction decides |
| FenceGeometry.ToggleErrsExactlyWhenMisjudged | internal/fence/engine.go:71-84 | the rounded and the exact ray test differ exactly on explicit windows of the crossing |
| FenceGeometry.BoundaryTestIsExact | internal/fence/engine.go:66-70 | the loop's boundary test holds exactly on the real boundary of the ring |
| FenceGeometry.BoundaryIsInside | internal/fence/engine.go:66-70 | every boundary point is contained |
| FenceGeometry.ContainsIsEvenOddExactlyWhen | internal/fence/engine.go:59-88 | containment equals the exact even-odd rule if and only if the point is on the boundary or an even number of edges is misjudged |
| FenceGeometry.ContainsIsEvenOddWhenClear | internal/fence/engine.go:59-88 | in particular when no straddling edge crosses within 3/2 micro-degree of the point |
| FenceGeometry.RoundingCanMisplaceAPoint | internal/fence/engine.go:74-81 | a valid triangle and a point outside it that is reported inside |
| FenceGeometry.CrossingStaysOnEdge | internal/fence/engine.go:74-81 | the rounded crossing stays between the longitudes of its edge's ends |
| FenceGeometry.StraddleParity | internal/fence/engine.go:64-86 | the edges of the closed walk straddle any latitude an even number of times |
| FenceGeometry.InsideIsInBoundingBox | internal/fence/engine.go:59-88 | every contained int32 point lies in the ring's bounding box |
| FenceEngine.SortByIdAscends | internal/fence/engine.go:177-179 | sorting orders distinct ids strictly |
| Text.LessExactlyWhen | internal/fence/engine.go:179 | the order of ids is lexicographic: the first difference decides, or the end |
| Text.BlankExactlyWhen | internal/fence/engine.go:163-164 | a key is blank exactly when it is all white space |
| FenceEngine.Engine.constructor | internal/fence/engine.go:154-156 | a new engine has seen nothing |
| FenceEngine.ObserveFence | internal/fence/engine.go:188-213 | the field-by-field update of one fence record is the step that `CrossingTheorem` and `DwellTheorem` characterise |
| FenceEngine.Engine.Observe | internal/fence/engine.go:162-216 | a call changes the maps and emits events as the specification of one report says, of which `CrossingTheorem`, `SilentOtherwise`, `DwellTheorem` and `AcceptsExactlyTheTimely` say what it emits |
| FenceTraces.CallEmitsInAscendingOrder | internal/fence/engine.go:177-213 | each call emits at most one event per fence, in strictly ascending id order |
| FenceTraces.ApplyOnFence | internal/fence/engine.go:180-213 | an accepted report changes a fence's record and emits its events through that fence alone |
| FenceTraces.TraceIsLegal | internal/fence/engine.go:162-216 | in every stream the events of a vessel at a fence follow the protocol, and the record stands where the trace stands |
| FenceTraces.LegalTracesAlternate | internal/fence/engine.go:188-201 | in such a trace ENTER and EXIT alternate, starting with ENTER |
| FenceTraces.LastIsGreatest | internal/fence/engine.go:166-170 | the stored time of a vessel is the greatest of its well-formed reports |
| FenceTraces.AcceptsExactlyTheTimely | internal/fence/engine.go:163-170 | exactly the malformed and the late reports are ignored |
| FenceTraces.LateReportsDoNotMatter | internal/fence/engine.go:163-170 | deleting the late reports changes neither state nor events |
| FenceTraces.OtherVesselUntouched | internal/fence/engine.go:162-187 | a report changes nothing kept for another vessel |
| FenceTraces.VesselsAreIndependent | internal/fence/engine.go:162-216 | a vessel's events and state are those of the stream of its own reports alone |
| FenceDwell.DwellFiresExactlyWhenDue | internal/fence/engine.go:189-213 | along any sightings, DWELL fires exactly when inside, not fired since the latest ENTER, slow now, and slow without interruption for the threshold |
| FenceDwell.RecordIsReplay | internal/fence/engine.go:189-213 | the record after a stream is the replay of the vessel's sightings of that fence |
| FenceDwell.DwellTheorem | internal/fence/engine.go:162-216 | in every stream with a fence of fixed threshold and gate, a call returns DWELL if and only if it is due |
| FenceCrossings.CountsExactlyWhen | internal/fence/engine.go:163-170 | a call counts for a vessel and a fence exactly when it names both, at a positive time, and no earlier report of the vessel is later |
| FenceCrossings.CrossingTheorem | internal/fence/engine.go:189-198 | in every stream, whatever the threshold and gate, a call that counts returns ENTER if and only if the vessel is inside and was not at the previous sighting, EXIT if and only if it is outside and was inside; every event carries the fence's version and the report's time |
| FenceCrossings.SilentOtherwise | internal/fence/engine.go:162-187 | a call that does not count for a fence of its vessel returns nothing for it |
| FenceCrossings.EntryIsRemembered | internal/fence/engine.go:189-194 | while a vessel is inside, its record holds the time of the ENTER that began the stay |
| FuelAllocation.AllocateOverlap | internal/mrv/voyage_emissions.go:74-95 | a window never draws more than the report's fuel |
| FuelAllocation.DrawnShare | internal/mrv/voyage_emissions.go:74-95 | the draw of any windows is their exact share, short by less than one unit per window |
| FuelAllocation.DisjointWindowsDrawAtMostTheFuel | internal/mrv/voyage_emissions.go:74-95 | disjoint windows together draw at most the report's fuel |
| FuelAllocation.TilingLosesLessThanOneUnitPerWindow | internal/mrv/voyage_emissions.go:74-95 | k windows that tile the period lose at most k - 1 units |
| FuelAllocation.BoundHoldsExactlyWhenThePeriodFits | internal/mrv/voyage_emissions.go:74-95 | the bound holds for all fuel and disjoint windows if and only if the period fits a duration |
| VoyageEmissions.GuardIsExact | internal/mrv/factors.go:68-76 | the overflow guard admits exactly the products that fit 64 bits |
| VoyageEmissions.LedgerSums | internal/mrv/voyage_emissions.go:139-173 | every grade's entry and the totals are the sums of the postings |
| VoyageEmissions.GradesAddUp | internal/mrv/report.go:92-122 | the per-grade list names each grade once and adds up to the total |
| VoyageEmissions.TotalsFit | internal/mrv/report.go:111-116 | the unguarded uint64 sums cannot wrap: not the CO2 of up to a billion reports, nor their fuel when every nano factor is at least the number of reports |
| VoyageEmissions.CompileAnnual | internal/mrv/report.go:96-119 | succeeds exactly when every report has a usable factor, with the ledger of all postings; otherwise the error is that of the first report that fails |
| VoyageEmissions.ComputeVoyage | internal/mrv/voyage_emissions.go:114-197 | each error occurs exactly in its case, the first failing report deciding which factor error, and the refused enqueue last; otherwise the ledger of the overlapping reports' shares |
| VoyageEmissions.SumShares | internal/mrv/voyage_emissions.go:137-167 | the loop over the reports: its success, its ledger and the error of the first report that fails |
| VoyageEmissions.DropZeroDurations | internal/mrv/voyage_emissions.go:295-303 | exactly the voyages of positive duration remain, the others are reported as skipped |
| VoyageEmissions.FindClashes | internal/mrv/voyage_emissions.go:304-311 | marks exactly the voyages that overlap another |
| VoyageEmissions.ComputeKept | internal/mrv/voyage_emissions.go:312-327 | a kept voyage is computed exactly when all its reports have factors and its event is enqueued |
| VoyageEmissions.SumKept | internal/mrv/voyage_emissions.go:312-327 | succeeds exactly when all voyages that clash with none pass; sums them and reports the rest as skipped |
| VoyageEmissions.SummariseShip | internal/mrv/voyage_emissions.go:295-328 | succeeds exactly when no voyage is kept, or the outbox admits the event and every kept voyage is computable; each voyage is kept or skipped with its reason and the total is the sum over the kept ones |
| EmissionsConservation.KeptIsDisjoint | internal/mrv/voyage_emissions.go:304-327 | the windows of the kept voyages are pairwise disjoint |
| EmissionsConservation.KeptVoyagesDrawAtMostTheFuel | internal/mrv/voyage_emissions.go:295-327 | over all kept voyages no report gives out more than its fuel |
| EmissionsConservation.PartsAtMostWhole | internal/mrv/factors.go:68-76 | the CO2 of disjoint parts of a report is at most the CO2 of the whole |
| EmissionsConservation.SummaryNeverExceedsAnnual | internal/mrv/voyage_emissions.go:295-327 | whenever the annual compile of the same reports succeeds, all kept voyages have their factors and their CO2 is at most the compiled total |
| EmissionsConservation.SummarySucceedsExactlyWhen | internal/mrv/voyage_emissions.go:312-327 | the summary then succeeds if and only if no voyage is kept or the outbox admits the voyages' events |
| EmissionsConservation.SummaryAsShipped | internal/mrv/voyage_emissions.go:192-196 | with the table as it is, the summary succeeds if and only if it keeps no voyage |
| EmissionsMeaning.Co2Meaning | internal/mrv/factors.go:68-76 | each error exactly in its case; otherwise the CO2 is amount times factor over 10^9, rounded down, with the factor of the grade at the end of the period |
| EmissionsMeaning.AnnualMeaning | internal/mrv/report.go:96-119 | the compiled totals are the sums over all fuel reports |
| EmissionsMeaning.GradesInOrderOfAppearance | internal/mrv/report.go:103-122 | the grades are listed in the order in which they first appear |
| EmissionsMeaning.FactorOfTheFirst | internal/mrv/report.go:103-108 | a grade's entry shows the factor of its first report |
| EmissionsMeaning.VoyageLedgerMeaning | internal/mrv/voyage_emissions.go:137-167 | a voyage's CO2 is the sum over the shares of all reports |
| EmissionsMeaning.OverlapMeansSharedInstant | internal/mrv/voyage_emissions.go:304-311 | two windows overlap exactly when they share an instant |
| EmissionsMeaning.KeptExactlyWhen | internal/mrv/voyage_emissions.go:295-327 | exactly the voyages of positive duration that share no instant with another such voyage are kept |
| Seasonal.ResiduesAreFedEqually | internal/congestion/forecast.go:180-205 | every admitted window feeds each residue exactly once |
| Seasonal.RawIndicesSumToPeriod | internal/congestion/forecast.go:180-215 | for every series and period the indices sum to the period before normalisation |
| Seasonal.SeasonalIndices | internal/congestion/forecast.go:180-215 | the code, with its normalisation, returns the raw indices |
| Seasonal.AccumulateWindows | internal/congestion/forecast.go:184-199 | the window loop fills sums and counts as specified |
| Seasonal.MeanOfWindow | internal/congestion/forecast.go:186-190 | the mean of one window |
| Seasonal.AddWindow | internal/congestion/forecast.go:194-198 | in place, one window is spread over all residues |
| Seasonal.MeanRatios | internal/congestion/forecast.go:200-206 | the mean ratio of each residue, 1 where nothing was admitted |
| Seasonal.Normalise | internal/congestion/forecast.go:207-214 | normalising indices that sum to their number changes nothing |
| Forecast.HoltDamped | internal/congestion/forecast.go:220-234 | each fitted value is the one-step forecast of the prefix before it |
| Forecast.StepCorrectsByTheError | internal/congestion/forecast.go:227-232 | smoothing moves the forecast of a value, and the damped trend, by fixed parts of the forecast's error |
| Forecast.Deseasonalise | internal/congestion/forecast.go:96-113 | the series divided by its own seasonal indices |
| Forecast.PredictOneStep | internal/congestion/forecast.go:295-320 | computes the one-step prediction of any training prefix, which is the first point served for it (`OneStepIsFirstServed`) |
| Forecast.Backtest | internal/congestion/forecast.go:251-289 | mean absolute and percentage errors of the model and the naive prediction over all origins in the window |
| Forecast.ServePoints | internal/congestion/forecast.go:139-162 | point h is at h steps past the last observation and has the value that `ServedClosedForm` describes |
| Forecast.ForecastSeries | internal/congestion/forecast.go:82-174 | each error exactly in its case; otherwise the points of the sorted series, by the season actually used, and the scores that `ScoresMeaning` describes |
| Forecast.SortingKeepsAll | internal/congestion/forecast.go:89-91 | sorting keeps all observations and orders them by time |
| Forecast.DampingIsBounded | internal/congestion/forecast.go:139-150 | the damped trend sum has its closed form and stays below nine steps |
| Forecast.OneStepIsFirstServed | internal/congestion/forecast.go:295-320 | the one-step prediction for a series is the first point served for it |
| Forecast.BacktestScoresTheServedModel | internal/congestion/forecast.go:251-289 | at every origin of sufficient history the backtest scores what the service would have served |
| Forecast.OriginsAreServable | internal/congestion/forecast.go:251-289 | all origins are servable if and only if there are at least twelve observations |
| ForecastMeaning.ServedClosedForm | internal/congestion/forecast.go:139-150 | the served value is the seasonal index times level plus 9 (1 - 0.9^h) trends, or zero if that is negative |
| ForecastMeaning.ServedFollowsTheTrend | internal/congestion/forecast.go:139-150 | in one season position the served values rise where the fitted trend is not negative and fall where it is not positive |
| ForecastMeaning.FirstServedIsTheNextFitted | internal/congestion/forecast.go:220-234 | without a season the first served value is the fitted value the smoothing has for the next observation, whatever that is, or zero |
| ForecastMeaning.SecondFittedValue | internal/congestion/forecast.go:220-228 | the second fitted value extrapolates the first difference, damped |
| ForecastMeaning.IndicesAreTheProfile | internal/congestion/forecast.go:180-215 | the seasonal indices of a periodic series are its profile over its mean |
| ForecastMeaning.PeriodicSeriesIsContinued | internal/congestion/forecast.go:96-162 | a positive periodic series is continued exactly, at every horizon |
| ForecastMeaning.PeriodicSeriesIsPredicted | internal/congestion/forecast.go:251-320 | model and naive reference predict it exactly at every origin that has seen two periods |
| BacktestMeaning.ScoresMeaning | internal/congestion/forecast.go:251-289 | the scores are the means of the absolute and percentage misses over the last quarter of the series, between 4 and 48 values, of the model and of the value one season before |
| BacktestMeaning.ZeroExactlyWhenRight | internal/congestion/forecast.go:251-289 | a mean absolute error is zero exactly when every prediction was right |
| BacktestMeaning.PeriodicSeriesScoresZero | internal/congestion/forecast.go:251-289 | a periodic series is scored without error |
| BacktestMeaning.IndexIsTheMeanRatio | internal/congestion/forecast.go:180-206 | each index is the mean of its ratios over all forward windows of positive mean, 1 where there is none |
| BacktestMeaning.DeseasonalisedMeaning | internal/congestion/forecast.go:96-113 | deseasonalising divides out the index of each position, where it is positive |
| Crc16.Crc16X25 | internal/connectors/gt06.go:290-303 | the nested loops compute the bit-serial register of the whole message |
| Crc16.EightShifts | internal/connectors/gt06.go:294-300 | the inner loop is eight register shifts |
| Crc16.FeedWord | internal/connectors/gt06.go:292-301 | feeding up to sixteen bits one by one is XOR-ing them in and shifting |
| Crc16.RegisterFeedsBits | internal/connectors/gt06.go:290-303 | the byte-wise register equals the bit-wise one for messages of any length |
| Crc16.CrcDetectsBursts | internal/connectors/gt06.go:290-303 | two messages of equal length that differ only within sixteen consecutive bits have different checksums |
| Crc16.CrcDetectsAdjacentBytes | internal/connectors/gt06.go:290-303 | so do messages that differ only inside one or two adjacent bytes |
| CrcFcs.CheckValue | internal/connectors/gt06.go:290-303 | the checksum of "123456789" is 0x906E, the check value of CRC-16/X.25 |
| CrcFcs.GoodFcs | internal/connectors/gt06.go:290-303 | a message followed by its checksum, low byte first, leaves the residue 0xF0B8 |
| Gt06.Reader.HuntMarker | internal/connectors/gt06.go:164-182 | consumes up to and including the first start marker, or everything |
| Gt06.Reader.ReadAfterMarker | internal/connectors/gt06.go:183-211 | the result and the bytes consumed are those of `ParseAfterMarker`, which accepts exactly the encodings of frames and refuses as `RefusedExactlyWhen` says |
| Gt06.Reader.ReadFrame | internal/connectors/gt06.go:161-212 | result and remaining input of reading one frame, errors included, as `FrameIsRead`, `AcceptedIsEncoded`, `RefusedExactlyWhen` and `NoMarkerNoFrame` describe them |
| Gt06.Writer.WriteReply | internal/connectors/gt06.go:277-287 | appends exactly one reply |
| Gt06.HuntSkipsNoise | internal/connectors/gt06.go:164-182 | noise without two adjacent 0x78 and without a trailing one is skipped |
| Gt06.ReplyIsRead | internal/connectors/gt06.go:277-287 | a written reply, also behind noise, is read back as its frame and exactly its bytes are consumed |
| Gt06.RepliesRoundTrip | internal/connectors/gt06.go:161-212 | any sequence of replies is read back frame by frame to the end of the input |
| Gt06Frames.FrameIsRead | internal/connectors/gt06.go:183-211 | any frame with up to 123 payload bytes, encoded behind quiet noise and before any tail, is read back with its protocol, payload and serial, and exactly its bytes are consumed |
| Gt06Frames.AcceptedIsEncoded | internal/connectors/gt06.go:161-212 | conversely, an accepted input is quiet noise, the encoding of the frame returned, and what is left |
| Gt06Frames.ReplyIsAnEncoding | internal/connectors/gt06.go:277-287 | a written reply is the encoding of a frame without payload |
| Gt06Frames.RefusedExactlyWhen | internal/connectors/gt06.go:183-207 | why a frame is refused, and what is then consumed: the length byte alone, the whole frame, or everything |
| Gt06Frames.NoMarkerNoFrame | internal/connectors/gt06.go:164-182 | where no two start bytes are adjacent everything is consumed and nothing is read |
| Gt06.CorruptionIsRejected | internal/connectors/gt06.go:201-207 | an accepted frame damaged within sixteen consecutive bits of protocol, payload or serial is rejected with a checksum error |
| Gt06Damage.LastByteChanges | internal/connectors/gt06.go:290-303 | changing the last byte of a message changes the checksum by the shifted difference alone |
| Gt06Damage.DamageIsSeenExactlyUnless | internal/connectors/gt06.go:183-211 | an accepted frame damaged inside two adjacent bytes behind its length byte is still accepted if and only if the damage is 0x91 in the last serial byte and 0x85 in the first checksum byte |
| Gt06Damage.DamagedReplyIsAccepted | internal/connectors/gt06.go:277-287 | every reply, damaged in this way, is read as the reply to another serial |
| Hub.OfferAll | internal/realtime/hub.go:97-108 | in any visiting order, each cleared subscriber gets the event or, if its queue is full, is closed and removed |
| Hub.FanOut.constructor | internal/realtime/hub.go:70-82 | a new hub has no subscribers |
| Hub.FanOut.PublishToShard | internal/realtime/hub.go:94-111 | one shard's locked section is one publish step and never meets a closed channel |
| Hub.FanOut.Publish | internal/realtime/hub.go:84-117 | an event without a type changes nothing; any other is processed by all sixteen shards: each live subscriber cleared for it has it at the end of its queue, or is closed and removed if 64 events wait there; no other channel changes |
| Hub.FanOut.Subscribe | internal/realtime/hub.go:121-147 | a fresh id in shard id mod 16, with an empty open channel, live at once and owed nothing yet |
| Hub.FanOut.CancelSubscription | internal/realtime/hub.go:135-145 | the channel is closed, if it was not before, with everything queued kept; no other channel changes |
| Hub.CloseAll | internal/realtime/hub.go:233-236 | closes exactly the shard's channels, each once |
| Hub.FanOut.ShutdownOne | internal/realtime/hub.go:229-239 | one shard's locked section of the shutdown |
| Hub.FanOut.Shutdown | internal/realtime/hub.go:229-239 | afterwards every channel is closed and everything queued is still there to read |
| Hub.PublishKeepsInv | internal/realtime/hub.go:84-117 | a publish step keeps every subscriber's guarantee |
| Hub.ShutdownKeepsInv | internal/realtime/hub.go:229-239 | so does a shutdown step |
| Hub.NextKeepsInv | internal/realtime/hub.go:84-147 | so does every step of any interleaving |
| Hub.EveryRunServes | internal/realtime/hub.go:84-147 | in every run, received plus queued is a gap-free prefix of the cleared events since subscribing, all of them while live, and no channel is closed twice or sent to after closing |
| HubEndings.EndsExactlyBy | internal/realtime/hub.go:94-145 | a live subscription ends in exactly its own cancel, a shutdown of its shard, or a publish it is cleared for that meets a full queue |
| HubEndings.EndedForGood | internal/realtime/hub.go:121-147 | an ended subscription never becomes live again |
| HubEndings.EndedOnlyBy | internal/realtime/hub.go:84-147 | in every run, a subscription that is not live was ended by such a step |
| DeviceRegistry.Store.Approve | internal/devices/store.go:236-334 | the approval transaction, with its errors, the malformed payload and undecodable key included, and the epoch it returns |
| DeviceRegistry.Store.Rotation | internal/devices/store.go:339-373 | the rotation's statements together are the specified rotation |
| DeviceRegistry.Store.Reject | internal/devices/store.go:376-407 | the rejection transaction; never by the request's maker |
| DeviceRegistry.Store.SetStatus | internal/devices/store.go:480-517 | legal transitions only; a terminal status revokes all keys |
| DeviceRegistry.Store.Consume | internal/devices/store.go:595-621 | an activation is consumed exactly when approved and the hash matches |
| DeviceRuns.NextKeepsInv | internal/devices/store.go:236-373 | every operation keeps the registry invariant |
| DeviceRuns.RunKeepsInv | internal/devices/store.go:236-373 | so does every run |
| DeviceRuns.ReachableRegistry | internal/devices/store.go:236-373 | epochs are exactly 1..key_epoch, which is one more than the approved rotations; one CURRENT key at key_epoch, or only revoked keys when terminal; no request decided by its maker |
| DeviceRuns.AuthenticatesExactly | internal/devices/verify.go:182-229 | exactly which epochs authenticate when nothing commits between the two reads; the inconsistency branch is then not taken |
| DeviceRuns.DeadForGood | internal/devices/verify.go:182-229 | with a monotone clock and one grace value, a revoked or expired epoch never authenticates again, whenever the device row was read |
| DeviceRuns.RotationRevokesOnlyTheRejected | internal/devices/store.go:339-373 | a rotation revokes only keys the verifier already rejects, and changes no other verdict |
| DeviceReads.InconsistentExactlyWhenInstalledBetween | internal/devices/verify.go:203-215 | the inconsistency branch is taken if and only if the device was active at the first read and a rotation between the reads installed precisely this epoch, with no later rotation or retirement |
| DeviceReads.AcceptedExactlyAsAtFirstRead | internal/devices/verify.go:182-229 | an accepted epoch would have been accepted at the first read, with the same key, if and only if it was not newer than the device's epoch there; a newer one was installed and demoted between the reads |
| DeviceReads.KeysAge | internal/devices/store.go:339-373 | along any run a key row keeps its public key, a revoked one stays revoked and a demoted one keeps its time or is revoked |
| DeviceReads.RotationBetweenTheReads | internal/devices/verify.go:203-215 | a run that reaches the inconsistency branch |
| DeviceReads.TwoRotationsBetweenTheReads | internal/devices/verify.go:203-222 | a run in which an epoch unknown at the first read is accepted |
| DeviceHistory.DecidedExactlyWhen | internal/devices/store.go:236-334 | exactly the pending requests of the tenant by another maker are decided; approved if the payload is usable and a rotation's device is active |
| DeviceHistory.ApprovalErrors | internal/devices/store.go:236-334 | why an approval is refused, each error exactly in its case |
| DeviceHistory.AcceptedExactlyWhen | internal/devices/store.go:480-517 | a status is set exactly for another status of a device of the tenant that is neither revoked nor decommissioned; an activation is consumed exactly for an approved request with this hash |
| DeviceHistory.RotationOutcome | internal/devices/store.go:339-373 | every key after a rotation: the new one CURRENT, the old CURRENT one PREVIOUS from now on, a PREVIOUS one past its grace revoked, all others unchanged |
| DeviceHistory.DefaultGraceIsADay | internal/devices/devices.go:98 | a grace that is not positive means 24 hours |
| DeviceHistory.RefusalReasons | internal/devices/verify.go:182-229 | why a device or epoch is refused, each reason exactly in its case |
| DeviceHistory.KeysComeFromApprovals | internal/devices/store.go:236-373 | in every run each key row holds the key of the approved request that installed its epoch |
| DeviceHistory.GraceCountsFromTheRotation | internal/devices/store.go:339-373 | a key in its grace window was demoted by the rotation to the next epoch, and its window counts from that rotation |
| DeviceHistory.StatusIsTheLastSet | internal/devices/store.go:480-517 | a device has the status last set, ACTIVE if none was |
| DeviceHistory.ConsumedWithTheApprovedHash | internal/devices/store.go:595-621 | an activation hash is the one set when its provisioning was approved, and a consumed request was consumed later with exactly that hash |
| PcsImporter.Importer.PollBatch | internal/connectors/pcs_ais.go:165-217 | rows are ingested in order up to the failure, if any; the cursor of the last row is returned only on success |
| PcsImporter.Importer.Turn | internal/connectors/pcs_ais.go:145-154 | one turn of the loop moves the cursor only after a successful poll |
| PcsImporter.WaitingMeaning | internal/connectors/pcs_ais.go:66-80 | the waiting rows are those later than the cursor, ties going by MMSI, in the order of time and MMSI |
| PcsImporter.RetryRepeatsThePrefix | internal/connectors/pcs_ais.go:145-217 | after an ingest that failed at row k the next poll delivers the first k rows again and then the rest, and the cursor ends where it would have |
| PcsImporter.WhereFromRow | internal/connectors/pcs_ais.go:66-80 | a cursor on the m-th waiting row selects exactly the later ones, also inside a tie group |
| PcsImporter.PollsDeliverInOrder | internal/connectors/pcs_ais.go:142-160 | n successful polls deliver the first n batches of waiting rows, once each and in order |
| PcsImporter.ExactlyOnceUnlessZeroRow | internal/connectors/pcs_ais.go:150-154 | this holds for all batch sizes if and only if no waiting row is at the zero instant |
| PcsRuns.NothingIsLost | internal/connectors/pcs_ais.go:142-217 | however polls fail and rows arrive, every row the cursor has passed was delivered, except those that arrived behind it |
| PcsRuns.DeliveredOnceInOrder | internal/connectors/pcs_ais.go:142-217 | without failures every row is delivered at most once and in order, also while the table grows |
| PcsPipeline.StoredExactlyWhen | internal/connectors/pipeline.go:158-185 | a row is stored if and only if some call with it was neither quarantined nor held as a duplicate, and its insert succeeded |
| PcsPipeline.DeliveredIsAcknowledged | internal/connectors/pcs_ais.go:183-211 | everything the importer counts as delivered was acknowledged by a call to the pipeline |
| PcsPipeline.PassedRowsStoredExactlyWhen | internal/connectors/pcs_ais.go:142-217 | in every story of arrivals, expiries and failing polls, the rows the cursor has passed were acknowledged, and exactly those above were stored |
| PcsPipeline.NothingAdmittedIsLost | internal/connectors/pipeline.go:158-185 | where inserts succeed and no vessel has two rows in one second, every row that passed the checks is stored |
| PcsPipeline.FailedInsertLosesTheRow | internal/connectors/pipeline.go:161-181 | after a failed insert the next call is absorbed and acknowledged, and the row is in no table |
| PcsPipeline.SecondRowOfASecondIsLost | internal/connectors/pcs_ais.go:202-205 | the second row of a vessel within one second is acknowledged and not stored, without any failure |
| VesselStatic.Table.UpsertVesselStatic | internal/store/static.go:44-100 | the transaction's new rows and outcome |
| VesselStatic.UpsertHistory | internal/store/static.go:44-100 | opening a version extends the vessel's own history and no other, unless another vessel shares the id |
| VesselStatic.StaysTiledExactlyWhen | internal/store/static.go:44-100 | every vessel's history stays tiled if and only if the upsert does not close another vessel's row |
| VesselStatic.RefusedExactlyWhenUnstorable | db/migrations/0001_core.sql:66-91 | with ids apart between vessels, only the column CHECKs refuse a change: never the key, the order of validity or the open-row index |
| VesselStatic.ClosingTouchesOnlyThisVessel | internal/store/static.go:81-86 | the closing statement touches only its vessel if and only if no other vessel's open row shares the id |
| VesselHistory.HistoriesTile | internal/store/static.go:44-100 | after any reports in any order, with ids apart between vessels, versions tile time, neighbours differ and exactly the last is open |
| VesselHistory.RunStaysTiledExactlyWhen | internal/store/static.go:44-100 | with any ids, all histories are tiled at every point of a run if and only if no upsert of the run closes another vessel's row |
| VesselHistory.OneVesselTiles | internal/store/static.go:44-100 | for the reports of one vessel this holds whatever their ids |
| VesselHistory.HistoryIsTheOpenings | internal/store/static.go:44-100 | the stored history is exactly the version-opening reports, each valid until the next was observed |
| VesselHistory.OutcomeExactlyWhen | internal/store/static.go:44-100 | what an upsert reports, told from the versions opened before it: no MMSI, unchanged, dropped as not newer, refused by a CHECK, or applied |
| VesselHistory.OneRowPerInstant | internal/store/static.go:44-100 | in a tiled history exactly one row covers each instant from the first version on |
| VesselHistory.InstantHasTheLastOpening | internal/store/static.go:44-100 | and that row holds everything the last version-opening report observed at or before it said |
| VesselHistory.SharedIdClosesAnothersRow | internal/store/static.go:81-86 | a run in which one vessel's change closes another's only row and leaves that history without an open one |
| AnnualReports.Service.UpsertDraft | internal/mrv/report.go:148-175 | inserts the first draft of a ship and year or replaces a draft's content; refuses anything else |
| AnnualReports.Service.SubmitReport | internal/mrv/report.go:227-255 | only the compiler submits a draft |
| AnnualReports.Service.RecordDecision | internal/mrv/report.go:288-366 | never by the submitter, with a reason unless VERIFY and of at most 1024 characters, only on submitted reports; the state it leaves is that of `StateFollowsTheLog` |
| AnnualReports.Service.IssueStatement | internal/mrv/report.go:439-486 | only for a verified report, once |
| AnnualReports.RunKeepsInv | internal/mrv/report.go:148-486 | every run keeps each report explained by its log |
| AnnualReports.StatementTheorem | internal/mrv/report.go:439-486 | a statement exists only after compile and submission by one principal and VERIFY by another, carries the submitted content, and is the only one for its report |
| AnnualReports.FinalReportsNeverChange | internal/mrv/report.go:288-366 | no step changes a verified or rejected report |
| AnnualReports.FinalForGood | internal/mrv/report.go:288-366 | nor does any run from then on |
| ReportHistory.NextLogs | internal/mrv/report.go:148-486 | every accepted step of a run adds exactly its own entry to the log, and nothing else does |
| ReportHistory.StateFollowsTheLog | internal/mrv/report.go:288-366 | in every run a report is DRAFT, SUBMITTED, VERIFIED or REJECTED exactly as its last logged step says: compiled; submitted or sent back for clarification; verified; rejected |
| ReportHistory.AcceptedExactlyWhen | internal/mrv/report.go:148-486 | each operation is accepted exactly when the log allows it: a recompile only of drafts, a submission by the last compiler, a decision on an open submission by another, one statement after VERIFY |
| ReportHistory.DecisionErrors | internal/mrv/report.go:288-320 | why a decision is refused, each error exactly in its case |
| Outbox.Publisher.EnqueueRow | internal/mrv/service.go:164-196 | the row is stored exactly when its type has a contract, the table's CHECKs admit it and the transaction commits |
| Outbox.Publisher.DrainOnce | internal/mrv/outbox.go:69-118 | which messages are sent, which rows are marked and whether it succeeds, also when a failed publish reached the broker or a failed commit was applied; the unknown-type branch is dead |
| Outbox.EnqueueKeepsInv | internal/mrv/service.go:183-196 | an enqueue keeps the delivery guarantee |
| Outbox.DrainKeepsInv | internal/mrv/outbox.go:69-118 | so does a drain, however it fails |
| Outbox.DeliveryTheorem | internal/mrv/outbox.go:69-118 | in every run a row is marked only after its message was delivered, redeliveries of an event id are identical, and every stored type has a contract |
| Outbox.MessageMeaning | internal/mrv/outbox.go:69-118 | a delivered message carries the key, payload, id and type of a stored row, on the topic of its contract |
| Outbox.NothingIsLost | internal/mrv/outbox.go:69-118 | no step loses, reorders or alters a row or takes back a mark |
| Outbox.CommittedDrainProgresses | internal/mrv/outbox.go:69-118 | a committed drain publishes exactly the oldest pending rows and leaves the rest in order |
| Outbox.DrainsPublishInOrder | internal/mrv/outbox.go:69-118 | n committed drains publish the first n batches of pending rows, once each and in order |
| Outbox.EnoughDrainsPublishAll | internal/mrv/outbox.go:69-118 | as many drains as it takes to cover the pending rows publish all of them |
| Outbox.OnlyVoyageEmissionsIsRefused | db/migrations/0012_mrv_core.sql:280-289 | the table refuses exactly one contract type |
| Cii.ParseNano | internal/mrv/cii.go:129-167 | returns the exact value of a plain decimal with at most nine fraction digits that fits 64 bits, and an error for every other text |
| Cii.WholeAndPadded | internal/mrv/cii.go:142-166 | whole part and padded fraction combine to the value of the numeral without its dot, scaled |
| Cii.RoundTrip | internal/mrv/cii.go:129-167 | parsing inverts printing for every uint64 and is an error beyond, never a wrapped value |
| Cii.ValidateBoundaries | internal/mrv/cii.go:105-118 | accepts exactly four parseable, strictly ascending boundaries |
| Cii.Rate | internal/mrv/cii.go:253-269 | the letter A to E at the number of leading boundaries below the attained value |
| Cii.RatingCountsBoundaries | internal/mrv/cii.go:253-269 | for a validated configuration the rating is the count of all boundaries strictly below attained |
| Cii.AttainedAscends | internal/mrv/cii.go:213-223 | attained CII is monotone in CO2 and antitone in distance, rounding included |
| Cii.AttainedMeaning | internal/mrv/cii.go:213-223 | attained CII is CO2 times 10^15 over capacity times distance, rounded down |
| Cii.BoundaryMeaning | internal/mrv/cii.go:260-263 | a boundary is required times multiplier over 10^9, rounded down |
| Cii.ComputedMeaning | internal/mrv/cii.go:189-250 | which outcome is reported in which case, with DWT as capacity where configured and GT otherwise |
| Cii.WorseNeverRatesBetter | internal/mrv/cii.go:189-250 | for a fixed ship and year, more CO2 or less distance never improves a rating, and a computable worse case makes the better one computable |
| Evidence.Store.AppendEvidence | internal/store/safety.go:901-939 | appends to a case in EVIDENCE state, linked to the row with the greatest key, unless a CHECK, the key or the chain hash refuses it |
| Evidence.Store.VerifyChain | internal/store/safety.go:964-977 | true exactly when every link of the listed log is intact from the genesis on |
| Evidence.AppendedExactlyWhen | internal/store/safety.go:901-939 | an item is appended exactly to a known case in EVIDENCE state, under a new id, within the CHECKs and with a new chain hash |
| Evidence.RunKeepsInv | internal/store/safety.go:901-939 | in every run each case's items are linked in insertion order with distinct ids and chain hashes |
| Evidence.InOrderVerifies | internal/store/safety.go:917-931 | if every append got the greatest key so far, the log verifies |
| Evidence.VerifiedIsInOrder | internal/store/safety.go:917-931 | and only then, unless the digest hits the genesis value |
| Evidence.VerifiesExactlyWhenInOrder | internal/store/safety.go:901-977 | both directions for every case in every run; the second where no chain hash equals the genesis value |
| Evidence.LateLockBreaksTheChain | internal/store/safety.go:917-931 | a run of two plain appends whose chain the verifier rejects |
| Evidence.SameHeadSameContents | internal/store/safety.go:780-783 | two verified logs with the same head have the same contents in order, unless the digest collides on two of their own items at the same distance from the end, or the longer log contains the genesis value |
| Inspections.Store.TransitionInspection | internal/store/safety.go:216-301 | each lifecycle action with its guards and errors |
| Inspections.Store.RecordDeficiency | internal/store/safety.go:306-341 | recorded as OPEN against a known checklist code, subject to the table's CHECKs |
| Inspections.Store.TransitionDeficiency | internal/store/safety.go:370-409 | rectify then verify, never verified by the rectifier |
| Inspections.MoveKeepsCoherent | db/migrations/0016_safety_modules.sql:65-76 | no action can violate the table's lifecycle and release-checker constraints |
| Inspections.RunKeepsInv | internal/store/safety.go:216-409 | every run keeps all rows coherent |
| Inspections.VerifiedForGood | internal/store/safety.go:370-409 | a VERIFIED deficiency never changes again |
| Inspections.ReleasedForGood | internal/store/safety.go:216-301 | a release and its detention are never taken back |
| Inspections.ReleaseTheorem | internal/store/safety.go:257-275 | every released inspection was detained by one principal and released by another, at a step when all its CRITICAL deficiencies were VERIFIED, for good, by someone other than the rectifier |
| Inspections.DetentionEndsInRelease | internal/store/safety.go:276-282 | a detained inspection is never closed without a release |
| InspectionHistory.LifecycleTheorem | internal/store/safety.go:216-301 | in every run the committed actions on an inspection are one of the ways to its stage, and its row names who committed them |
| InspectionHistory.MovesExactlyWhen | internal/store/safety.go:216-301 | an action is committed exactly when it continues such a way and its guard holds: grounds for a detention; for a release another principal than the detainer and every CRITICAL deficiency VERIFIED |
| InspectionHistory.LeadsExactlyWhen | internal/store/safety.go:216-301 | which actions lead on from which stage |
| InspectionHistory.TransitionErrors | internal/store/safety.go:216-301 | why a transition is refused; the maker/checker error exactly for a release out of rectification by the detainer |
| InspectionHistory.DeficiencyTheorem | internal/store/safety.go:306-409 | in every run a deficiency is OPEN until rectified, RECTIFIED until verified by someone else, VERIFIED from then on, and its row holds what was recorded and both principals |
| InspectionHistory.ResolvedExactlyWhen | internal/store/safety.go:306-409 | exactly when a finding is recorded, and when a deficiency is rectified or verified |
| LateDeficiencies.ReleasesStayClearExactlyWhen | internal/store/safety.go:306-341 | a step keeps all releases free of open CRITICAL deficiencies if and only if it does not record one after the release |
| LateDeficiencies.RunStaysClearExactlyWhen | internal/store/safety.go:306-341 | a whole run does, at every point, if and only if none of its steps records one after the release |
| LateDeficiencies.DeficiencyAfterRelease | internal/store/safety.go:306-341 | a run that ends with an open CRITICAL deficiency on a released inspection |

## Left out

- FenceEngine.Engine.Observe: where a call names one id twice, the two fences are taken in the order given; the source's sort leaves that order open. The trace theorems are about distinct ids.
- VoyageEmissions.LedgerSums: totals are unbounded naturals, which `TotalsFit` shows to be the uint64 sums for up to a billion reports with factors of at least one; beyond that wrap-around is not modelled.
- VoyageEmissions.ComputeVoyage: the lookup of an emission factor is a given function, although the code issues that query while the rows of another are still open; the AIS cross-check is not part of the model.
- VoyageEmissions.SummariseShip: the summary's separate transactions see one set of reports; the incomplete-window query whose error is ignored is not modelled.
- Forecast.ForecastSeries: exact reals instead of floats; equal timestamps keep a fixed order; the prediction intervals, with their square roots, are not modelled.
- PcsPipeline.StoredExactlyWhen: the pipeline is modelled on values, as the log of its calls; which rows the static and consecutive checks quarantine is given, and so is when a deduplication key expires.
- Hub.EveryRunServes: subscriber ids are unbounded integers, so the wrap-around of a uint64 counter is not modelled.
- DeviceRegistry.Store.Consume: decoding and hashing the activation secret happen before the modelled update.
- Cii.ParseNano: the kinds of parse error are not told apart, and a text is a sequence of code points, not bytes.
- Cii.WorseNeverRatesBetter: the required CII, which the code evaluates in floating point, is a given function of configuration, year and capacity.
- Outbox.DeliveryTheorem: event ids are taken to be fresh (they are random UUIDs), and an envelope is an opaque payload.
- Evidence.VerifiesExactlyWhenInOrder: ids are compared by code point; the database's collation may order them differently.
- AnnualReports.Service.UpsertDraft: the redraft UPDATE (internal/mrv/report.go:171-174) passes eight arguments and never mentions its second; it is taken at its intended meaning.
- Hashing, signatures, canonical JSON and envelopes: uninterpreted or absent.
- `parseGT06GPS` and the other message bodies behind a frame: only the framing is modelled.
- Tenancy and row-level security beyond matching the tenant of a device row, HTTP handlers, roles, configuration, metrics and migrations.
- The SOS lifecycle, the SAR ladder, zone approval, monitoring plans and the classification ladder: state machines that would only add easy members.
- PostGIS queries, great-circle lengths, GTFS rendering and the ML proxy: their meaning lies in libraries or the database.
