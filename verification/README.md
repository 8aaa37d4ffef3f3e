# Ride track processing, modelled in Dafny

This project models the track-processing core of an n8n integration for a
ride-logging service. The core works on GPS samples:

- **Trip samples** carry longitude, latitude, elevation, a Unix timestamp and
  optional speed, heart rate and cadence.
- **Route samples** carry a position and an elevation only.

The model covers eight parts of the core:

- **Data transformation.** Translates between the service's compact wire
  format (`x`, `y`, `e`, `t`, `s`, `h`, `c`) and readable field names, for
  trip points, route points, trips, routes and route lists.
- **Collinear removal.** Thins a track by dropping samples that lie almost
  on the line between the last kept sample and the next one.
- **Stationary detection and consolidation.** Finds dwell episodes: runs of
  samples within a radius of their first sample that last long enough.
  Consolidation replaces each episode by its first sample, a synthetic
  centre and its last sample.
- **Normalisation.** Runs collinear removal and, for timed (trip) data,
  stationary consolidation.
- **Speed outliers.** Removes samples whose speed to a neighbour exceeds the
  mean plus three standard deviations.
- **Trip analysis.** Finds the northern-, southern-, western- and
  eastern-most samples.
- **Investigation points.** Selects the samples worth looking at: start and
  end, long stays, elevation peaks, course tenths, geographic extremes,
  half-hour marks and 5 km marks. Candidates are scored, merged by proximity
  (protecting high scores), given an isolation bonus, ranked and cut to
  `maxPoints`.
- **GeoJSON and KML output helpers.** Coordinate validation and filtering,
  bounding boxes, point and line features, XML escaping, and duration and
  distance text.

## How the model is built

- **The earth's geometry is a parameter.** The haversine distance is a
  function parameter `d: Metric` and the spherical cross-track distance is
  `xt: CrossTrack`. The proofs rely only on what `GeoUtils.IsDistance` and
  `LineDetection.IsCrossTrack` state: non-negative, symmetric, zero on equal
  positions. The square root used for the standard deviation is likewise a
  parameter, with `SpeedOutlierRemover.IsSqrt` as its only assumption.
- **Numbers.** Coordinates, distances and speeds are `real`. Timestamps are
  `int` seconds.
- **JavaScript semantics are written out where they matter:**
  - `||` defaulting (`OrInt`, `OrReal`) and `??` defaulting (`GetOr`,
    `Coalesce`);
  - NaN comparisons (`GeoJsonHelpers.JsNumber`);
  - the truncating remainder `%` (`KmlHelpers.JsRemainder`);
  - `Math.round` (`Seqs.JsRound`);
  - `Array.prototype.slice` with a negative end (`Seqs.JsSlicePrefix`);
  - the stable score sort (`InvestigationMerge.SortByScore`, with
    `SortByScoreStable` for the stability).
- **Loops are pure functions.** Each loop of the source is a recursive
  function that follows it step by step. A second, declarative definition
  states what the loop means, and a lemma proves the two agree:
  - `ChainFrom` for collinear removal;
  - `DwellSpans` for stationary detection;
  - `Pieces` for consolidation;
  - `IsElevationPeak` for the peak scan;
  - `CrossesInterval` for the distance marks;
  - `AcceptAll` for the merge;
  - `Nearest` for the bonus scan;
  - `EscapeEach` / `Unescape` for escaping.

Stationary detection scans index spans `(startIndex, endIndex)` and then builds
one group per closed span (`BuildGroups`). The source builds each group when
its span closes. A group depends only on its span, so the results are the same.

Where the code and its own documentation disagree, the model follows the code:

- **Time-interval candidates.** The tolerance is one-sided. A sample 30 s
  after a half-hour mark qualifies; one 10 s before it does not, because
  `elapsed % 1800` is then 1790 (`InvestigationCandidates.TimeMarkOneSided`).
  The comment promises ±30 s.
- **Collinear tolerance.** The default tolerance of `removeCollinearPoints`
  is 0.001, as the code sets it. Its doc comment says 0.01.

Constant speeds: when every positive step speed is the same, the variance is
zero, so the outlier threshold is the mean itself and no sample is removed,
since no speed exceeds it.

## Model

| member | source | states |
|---|---|---|
| DataTransformer.TransformTrackPointToAPI | utils/dataTransformer.ts:36-46 | converting a readable trip point to the wire format and back gives the same point |
| DataTransformer.APIPointRoundTrip | utils/dataTransformer.ts:9-19 | converting a wire trip point to readable form and back gives the same wire point |
| DataTransformer.TransformAPITrackPoints | utils/dataTransformer.ts:26-29 | the sequence conversion is element-wise and keeps length and order |
| DataTransformer.TransformTrackPointsToAPI | utils/dataTransformer.ts:53-56 | the reverse sequence conversion is element-wise and is undone by the forward one |
| DataTransformer.APIPointsRoundTrip | utils/dataTransformer.ts:26-29 | a wire track survives the round trip through readable form unchanged |
| DataTransformer.TransformAPITrip | utils/dataTransformer.ts:104-110 | trip metadata is copied and the converted points map back to the original wire points |
| DataTransformer.TransformAPITripData | utils/dataTransformer.ts:117-121 | the wrapped trip is converted in the same lossless way |
| DataTransformer.TransformRouteTrackPointToAPI | utils/dataTransformer.ts:151-157 | a readable route point survives the round trip through the wire format |
| DataTransformer.APIRoutePointRoundTrip | utils/dataTransformer.ts:129-135 | a wire route point survives the round trip through readable form |
| DataTransformer.TransformAPIRouteTrackPoints | utils/dataTransformer.ts:142-144 | route point conversion is element-wise, keeping length and order |
| DataTransformer.TransformRouteTrackPointsToAPI | utils/dataTransformer.ts:164-166 | the reverse route conversion is element-wise and undone by the forward one |
| DataTransformer.APIRoutePointsRoundTrip | utils/dataTransformer.ts:142-144 | a wire route track survives the round trip unchanged |
| DataTransformer.TransformAPIRoute | utils/dataTransformer.ts:203-208 | route metadata is copied; points are present after conversion exactly when present before, and convert back losslessly |
| DataTransformer.TransformAPIRouteData | utils/dataTransformer.ts:215-219 | the wrapped route keeps its metadata and the presence of its points, and present points convert back to the wire points unchanged |
| DataTransformer.TransformAPIRoutesListResponse | utils/dataTransformer.ts:241-251 | the listing keeps paging data and every route's metadata, in order, and no route carries points |
| GeoUtils.MidpointTimestamp | utils/common/geoUtils.ts:52-54 | the rounded midpoint is within half a second of the true midpoint, rounding halves up, and lies between ordered ends |
| GeoUtils.AveragePoint | utils/common/geoUtils.ts:49-62 | the centre's latitude and longitude are the members' means and lie within the members' ranges; its timestamp is the rounded midpoint of the first and last; the other readings are the first member's |
| GeoUtils.AverageOfSlice | utils/common/geoUtils.ts:49-62 | the centre of a run of samples lies inside that run's latitude and longitude ranges |
| GeoUtils.ExtractStationaryMarkers | utils/common/geoUtils.ts:70-72 | one marker per group, in group order, each the group's centre |
| SignificantLocations.SignificantOptions | utils/common/geoUtils.ts:82-92 | absent parameters default to 30 minutes and 200 m and are passed to the detector as its thresholds |
| SignificantLocations.GetSignificantLocations | utils/common/geoUtils.ts:82-95 | one location per detected stay, in order; each stay has at least two samples, stays within the distance of its first sample, lasts at least the duration, and its location is the stay's average point |
| SignificantLocations.LocationsInsideStays | utils/common/geoUtils.ts:82-95 | every location lies inside its stay's latitude and longitude ranges, with the stay's midpoint time |
| LineDetection.PerpendicularDistance | utils/normalizers/lineDetection.ts:13-54 | a degenerate segment measures the distance to its start; otherwise the cross-track distance; never negative |
| LineDetection.CoincidentEndsMeasureToAnchor | utils/normalizers/lineDetection.ts:29-32 | a segment whose ends coincide measures the plain distance to that position |
| LineDetection.RetainedIsChain | utils/normalizers/lineDetection.ts:72-97 | the loop's retained indices satisfy the greedy-chain description: each kept index passes the test against the previous kept one, each skipped index fails it |
| LineDetection.ChainIsRetained | utils/normalizers/lineDetection.ts:72-97 | the greedy-chain description has only one solution, the loop's |
| LineDetection.RetainedIndices | utils/normalizers/lineDetection.ts:70-100 | the kept indices are increasing, within range, start at 0, end at the last index, and form the greedy chain |
| LineDetection.RemoveCollinearPoints | utils/normalizers/lineDetection.ts:62-111 | two samples or fewer come back unchanged; otherwise the result is the greedy-chain selection of the input, keeps the first and last sample and never grows |
| LineDetection.RemovalIsGreedyChain | utils/normalizers/lineDetection.ts:62-111 | any index sequence meeting the greedy-chain description selects exactly the removal's result |
| LineDetection.OnLinePointDropped | utils/normalizers/lineDetection.ts:78-96 | a sample exactly on the line to the next sample is dropped |
| LineDetection.ReturnToAnchor | utils/normalizers/lineDetection.ts:78-96 | when the next sample returns to the last kept one, a sample is kept exactly when it lies at a positive distance from it |
| StationaryPointDetection.GroupRadius | utils/normalizers/stationaryPointDetection.ts:36-39 | the radius bounds every member's distance from the centre and is attained by some member |
| StationaryPointDetection.MakeGroup | utils/normalizers/stationaryPointDetection.ts:33-48 | a group records its span, the members of that span, their average point, the span's duration and its radius |
| StationaryPointDetection.CloseSpan | utils/normalizers/stationaryPointDetection.ts:29-31 | a span is reported exactly when it has at least two samples and lasts at least the time threshold |
| StationaryPointDetection.ScanStep | utils/normalizers/stationaryPointDetection.ts:19-54 | closing a span when a sample leaves the anchor's radius keeps every span a dwell span and the spans disjoint and ordered |
| StationaryPointDetection.BuiltGroupsValid | utils/normalizers/stationaryPointDetection.ts:33-48 | the group built for a dwell span is a stationary group, and groups built for disjoint ordered spans are disjoint and ordered |
| StationaryPointDetection.FirstFar | utils/normalizers/stationaryPointDetection.ts:19-28 | the first sample from a position on that lies beyond the threshold of the anchor: every sample before it is within the threshold |
| StationaryPointDetection.ScanIsDwells | utils/normalizers/stationaryPointDetection.ts:17-77 | the loop closes exactly the spans of the declarative reading: each anchor's span runs to the sample before the first far one, which becomes the next anchor |
| StationaryPointDetection.DetectIsDwells | utils/normalizers/stationaryPointDetection.ts:9-80 | the detected groups are exactly the groups of the qualifying anchor spans, in order; no qualifying span is missed |
| StationaryPointDetection.OneDwellOneGroup | utils/normalizers/stationaryPointDetection.ts:56-77 | a track that never leaves the threshold of its first sample and lasts long enough is one group, from the first sample to the last |
| StationaryPointDetection.DetectStationaryGroups | utils/normalizers/stationaryPointDetection.ts:9-80 | every group lies within the distance threshold of its first sample, cannot be extended by the next sample, lasts at least the time threshold, and groups appear in order without overlap |
| StationaryPointDetection.CenterInsideGroup | utils/normalizers/stationaryPointDetection.ts:33-34 | a group's centre lies inside its members' latitude and longitude ranges, with the rounded midpoint of the group's end timestamps |
| StationaryPointDetection.GroupGeometry | utils/normalizers/stationaryPointDetection.ts:36-47 | under a distance function a detected group's radius is never negative |
| StationaryPointDetection.ConsolidateStationaryPoints | utils/normalizers/stationaryPointDetection.ts:87-140 | the output is the sample-by-sample reading: uncovered samples pass through, each group becomes its first sample, its centre and its last sample; the length is the input length minus the covered samples plus three per group; short or group-free input is unchanged; the first and last samples survive |
| StationaryPointDetection.RebuildMatchesPieces | utils/normalizers/stationaryPointDetection.ts:101-130 | the loop over groups, with slices before, between and after them, produces exactly the sample-by-sample reading |
| StationaryPointDetection.DetectedWellFormed | utils/normalizers/stationaryPointDetection.ts:9-80 | detected groups are ordered, disjoint, in range, have two or more samples, and none exist for fewer than two samples |
| SpeedOutlierRemover.Speed | utils/sanitizers/speedOutlierRemover.ts:13-25 | zero when either timestamp is missing or zero or both are equal; otherwise distance over the absolute time difference; never negative |
| SpeedOutlierRemover.PositiveSpeeds | utils/sanitizers/speedOutlierRemover.ts:30-35 | is the ordered selection of the step speeds that keeps each one exactly when it is positive |
| SpeedOutlierRemover.Variance | utils/sanitizers/speedOutlierRemover.ts:42 | the mean squared deviation is never negative |
| SpeedOutlierRemover.SpeedStatistics | utils/sanitizers/speedOutlierRemover.ts:27-49 | the threshold is infinite exactly when no step speed is positive, and then mean and deviation are zero; otherwise it is mean plus three deviations, with a positive mean not above it; the mean and deviation are those of the positive step speeds |
| SpeedOutlierRemover.RemoveSpeedOutliers | utils/sanitizers/speedOutlierRemover.ts:51-98 | fewer than two samples come back unchanged; otherwise the result keeps, in order, exactly the samples for which neither the speed from the previous sample nor the speed to the next one exceeds the threshold; each side is checked only when both of its samples have a truthy timestamp |
| SpeedOutlierRemover.NoOutlierBelowInfinity | utils/sanitizers/speedOutlierRemover.ts:70-87 | no sample is removed against an infinite threshold |
| SpeedOutlierRemover.StationaryTrackUnchanged | utils/sanitizers/speedOutlierRemover.ts:37-39 | a track with no positive step speed comes back unchanged |
| TrackPointNormalizer.LevelsOrdered | utils/normalizers/trackPointNormalizer.ts:26-30 | the low, medium and high presets have strictly increasing tolerance ratios |
| TrackPointNormalizer.Simplify | utils/normalizers/trackPointNormalizer.ts:57-62 | collinear removal keeps the kind of data and never empties a non-empty track |
| TrackPointNormalizer.NormalizeTrackPoints | utils/normalizers/trackPointNormalizer.ts:44-74 | empty input is returned as is; route data gets collinear removal at the chosen preset (medium by default); trip data also gets stationary consolidation after it |
| TrackPointNormalizer.NormalizeKeepsEndpoints | utils/normalizers/trackPointNormalizer.ts:44-74 | normalisation keeps the first and last sample of a non-empty track |
| TrackPointNormalizer.RouteNeverGrows | utils/normalizers/trackPointNormalizer.ts:66-73 | route data is never longer after normalisation |
| TripAnalyzer.AnalyzeTripData | utils/tripAnalyzer.ts:10-43 | an error exactly for an empty track; otherwise each extreme is the earliest sample with the greatest or least latitude or longitude |
| TripAnalyzer.FirstArgMaxUnique | utils/tripAnalyzer.ts:25-30 | the earliest extreme is unique, so the four extremes are fully determined |
| TripAnalyzer.SinglePointExtremes | utils/tripAnalyzer.ts:20-30 | a one-sample track has that sample as all four extremes |
| InvestigationCandidates.OrInt | utils/converter/investigationPoints/tripToInvestigationPoints.ts:59 | a missing or zero option falls back to the default, any other value is used |
| InvestigationCandidates.OrReal | utils/converter/investigationPoints/tripToInvestigationPoints.ts:86 | a missing or zero distance falls back to the default, any other value is used |
| InvestigationCandidates.StartEndCandidates | utils/converter/investigationPoints/tripToInvestigationPoints.ts:69-82 | the first sample, then the last when there are two or more, both at the start/end score |
| InvestigationCandidates.StationaryCandidates | utils/converter/investigationPoints/tripToInvestigationPoints.ts:85-95 | one candidate per long stay found with the option-derived thresholds, at the stationary score |
| InvestigationCandidates.PeakScan | utils/converter/investigationPoints/tripToInvestigationPoints.ts:105-124 | the inner scan ends with the least and greatest elevation among nearby samples, and still highest exactly when no nearby sample is higher |
| InvestigationCandidates.PeakTestIsPeak | utils/converter/investigationPoints/tripToInvestigationPoints.ts:98-134 | the running min/max test holds exactly when no sample within 1 km is higher and one is at least 50 m lower |
| InvestigationCandidates.PeakCandidates | utils/converter/investigationPoints/tripToInvestigationPoints.ts:98-134 | exactly the elevation peaks, in track order, at the peak score |
| InvestigationCandidates.CourseIndex | utils/converter/investigationPoints/tripToInvestigationPoints.ts:139 | the index is the floor of (n-1)·k/10, within the track, and the last index for k = 10 |
| InvestigationCandidates.CourseCandidates | utils/converter/investigationPoints/tripToInvestigationPoints.ts:137-145 | none below ten samples; otherwise ten tenth-points ending at the last sample |
| InvestigationCandidates.ExtremeCandidates | utils/converter/investigationPoints/tripToInvestigationPoints.ts:148-181 | north, south, east and west in that order, each the earliest sample attaining the extreme |
| InvestigationCandidates.TimeMarkOneSided | utils/converter/investigationPoints/tripToInvestigationPoints.ts:191 | 10 s after a half-hour mark qualifies, 10 s before it does not |
| InvestigationCandidates.TimeCandidates | utils/converter/investigationPoints/tripToInvestigationPoints.ts:184-198 | exactly the samples with positive elapsed time at most 30 s past a multiple of 1800 s, in order |
| InvestigationCandidates.DistanceMarks | utils/converter/investigationPoints/tripToInvestigationPoints.ts:201-225 | the marked indices are increasing and within the track |
| InvestigationCandidates.DistanceMarksAreCrossings | utils/converter/investigationPoints/tripToInvestigationPoints.ts:201-225 | with non-negative distances the loop marks exactly the samples where the distance travelled passes a new multiple of 5 km |
| InvestigationCandidates.CrossingStep | utils/converter/investigationPoints/tripToInvestigationPoints.ts:217-222 | the test against the last marked multiple is the test for passing a new multiple |
| InvestigationCandidates.DistanceCandidates | utils/converter/investigationPoints/tripToInvestigationPoints.ts:201-225 | none for fewer than two samples; otherwise one candidate per marked sample, in order |
| InvestigationCandidates.DistanceCandidatesAtCrossings | utils/converter/investigationPoints/tripToInvestigationPoints.ts:201-225 | a sample is a distance candidate exactly when it crosses a 5 km multiple |
| InvestigationCandidates.Candidates | utils/converter/investigationPoints/tripToInvestigationPoints.ts:66-225 | the list starts with the start sample and, for two or more samples, the end sample, both at the top score |
| InvestigationCandidates.CandidatesLayout | utils/converter/investigationPoints/tripToInvestigationPoints.ts:66-225 | after the start and end entries the list is exactly the later rules' candidates, in rule order |
| InvestigationMerge.Insert | utils/converter/investigationPoints/tripToInvestigationPoints.ts:228 | insertion adds exactly one element and keeps every other |
| InvestigationMerge.InsertKeepsOrder | utils/converter/investigationPoints/tripToInvestigationPoints.ts:228 | inserting into a list sorted by descending score keeps it sorted |
| InvestigationMerge.SortByScore | utils/converter/investigationPoints/tripToInvestigationPoints.ts:228 | the result is a permutation of the input in non-increasing score order |
| InvestigationMerge.InsertOfScore | utils/converter/investigationPoints/tripToInvestigationPoints.ts:228 | inserting into a sorted list puts the entry after every entry of its score and keeps the order of the others |
| InvestigationMerge.SortByScoreStable | utils/converter/investigationPoints/tripToInvestigationPoints.ts:228 | the sort is stable: the entries of each score appear in their input order |
| InvestigationMerge.MergeInto | utils/converter/investigationPoints/tripToInvestigationPoints.ts:252-293 | a merge step only keeps accepted points or adds the candidate |
| InvestigationMerge.MergeAll | utils/converter/investigationPoints/tripToInvestigationPoints.ts:252-293 | the merge only keeps candidates |
| InvestigationMerge.MergeIntoSorted | utils/converter/investigationPoints/tripToInvestigationPoints.ts:256-288 | when no accepted point scores below the candidate, a step never removes anything: it appends a protected candidate, or one with nothing near |
| InvestigationMerge.MergeAllSorted | utils/converter/investigationPoints/tripToInvestigationPoints.ts:252-293 | on score-sorted candidates the merge equals the accept-only reading |
| InvestigationMerge.AcceptAllShape | utils/converter/investigationPoints/tripToInvestigationPoints.ts:252-293 | the accept-only reading keeps candidates only, in score order |
| InvestigationMerge.AcceptAllGrows | utils/converter/investigationPoints/tripToInvestigationPoints.ts:252-293 | accepted points are never removed by later candidates |
| InvestigationMerge.ProtectedAccepted | utils/converter/investigationPoints/tripToInvestigationPoints.ts:262-273 | every candidate scoring at least 80 is accepted |
| InvestigationMerge.AcceptAllSpaced | utils/converter/investigationPoints/tripToInvestigationPoints.ts:252-293 | two accepted points within the merge distance of each other are both protected |
| InvestigationMerge.NearestWithExit | utils/converter/investigationPoints/tripToInvestigationPoints.ts:301-311 | with no other point left to scan, the running least distance is the result |
| InvestigationMerge.Nearest | utils/converter/investigationPoints/tripToInvestigationPoints.ts:298-311 | the full scan yields the least distance to another point, infinite exactly when there is none |
| InvestigationMerge.NearestBetween | utils/converter/investigationPoints/tripToInvestigationPoints.ts:298-311 | from a non-negative running value, the least distance stays between zero and it |
| InvestigationMerge.NearbyEarnsNothing | utils/converter/investigationPoints/tripToInvestigationPoints.ts:309-316 | a distance below the early-exit bound rounds to no bonus |
| InvestigationMerge.NearbyScanEarnsNothing | utils/converter/investigationPoints/tripToInvestigationPoints.ts:306-316 | after a near point is found, the rest of the scan cannot raise the bonus above zero |
| InvestigationMerge.EarlyExitHarmless | utils/converter/investigationPoints/tripToInvestigationPoints.ts:306-311 | stopping the scan at a near point gives the same bonus as scanning to the end |
| InvestigationMerge.IsolationBonus | utils/converter/investigationPoints/tripToInvestigationPoints.ts:296-318 | a lone point earns no bonus |
| InvestigationMerge.IsolationBonusIsNearest | utils/converter/investigationPoints/tripToInvestigationPoints.ts:296-318 | the bonus is the rounded kilometre distance to the nearest other point, and never negative |
| InvestigationMerge.ApplyBonus | utils/converter/investigationPoints/tripToInvestigationPoints.ts:296-318 | each point keeps its sample and position and gains its isolation bonus |
| InvestigationMerge.BonusNeverLowers | utils/converter/investigationPoints/tripToInvestigationPoints.ts:296-318 | no score goes down, and a lone point keeps its score |
| InvestigationPoints.Merged | utils/converter/investigationPoints/tripToInvestigationPoints.ts:228-293 | every merged point is one of the candidates |
| InvestigationPoints.Ranked | utils/converter/investigationPoints/tripToInvestigationPoints.ts:296-321 | the merged points with bonus, permuted into non-increasing score order |
| InvestigationPoints.Select | utils/converter/investigationPoints/tripToInvestigationPoints.ts:321-335 | the samples of the best-ranked points, in rank order: the first maxPoints of them (all when there are fewer), or for a negative maxPoints all but the last -maxPoints |
| InvestigationPoints.TripToInvestigationPoints | utils/converter/investigationPoints/tripToInvestigationPoints.ts:54-338 | nothing for an empty track; at most maxPoints samples; otherwise the ranked selection of the track's candidates |
| InvestigationPoints.ProtectedSurviveMerge | utils/converter/investigationPoints/tripToInvestigationPoints.ts:262-273 | every candidate scoring at least 80, start and end among them, survives the merge |
| InvestigationPoints.MergedAreSpaced | utils/converter/investigationPoints/tripToInvestigationPoints.ts:252-293 | after the merge, points within the merge distance of each other are all protected |
| InvestigationPoints.NonEmptyTrackYieldsPoint | utils/converter/investigationPoints/tripToInvestigationPoints.ts:54-338 | a non-empty track with a positive maxPoints yields at least one sample |
| GeoJsonHelpers.Coalesce | utils/converter/geojson/geojsonHelpers.ts:28-31 | the primary field when present, else the alternative |
| GeoJsonHelpers.AsWrittenAgreesAwayFromNaN | utils/converter/geojson/geojsonHelpers.ts:34-47 | the range checks as written accept every valid point, and accept no other point whose coordinates are numbers |
| GeoJsonHelpers.NaNLongitudeSlipsThrough | utils/converter/geojson/geojsonHelpers.ts:40-42 | a NaN longitude passes the range check as written although it is not in range |
| GeoJsonHelpers.TrackPointToCoordinate | utils/converter/geojson/geojsonHelpers.ts:26-57 | an error exactly for an invalid point; otherwise the point's longitude and latitude, in range, and its elevation when it has one |
| GeoJsonHelpers.FilterValidTrackPoints | utils/converter/geojson/geojsonHelpers.ts:165-182 | keeps exactly the valid points, in order |
| GeoJsonHelpers.FilteredPointsConvert | utils/converter/geojson/geojsonHelpers.ts:165-182 | a point survives the filter exactly when it converts without error |
| GeoJsonHelpers.CalculateBBox | utils/converter/geojson/geojsonHelpers.ts:70-92 | an error exactly for no coordinates; otherwise the tightest box: every position inside, every side touched |
| GeoJsonHelpers.CreatePointFeature | utils/converter/geojson/geojsonHelpers.ts:104-120 | a point geometry at the coordinate, with the given properties |
| GeoJsonHelpers.CreateLineStringFeature | utils/converter/geojson/geojsonHelpers.ts:133-154 | an error exactly for fewer than two coordinates; otherwise a line through them in order, with the given properties |
| KmlHelpers.ReplaceAllConcat | utils/converter/kml/kmlHelpers.ts:8 | global replacement distributes over concatenation |
| KmlHelpers.ReplaceRemoves | utils/converter/kml/kmlHelpers.ts:8-12 | after a global replacement the replaced character no longer occurs |
| KmlHelpers.ReplaceKeepsAbsent | utils/converter/kml/kmlHelpers.ts:8-12 | a replacement does not introduce characters absent from the text and the replacement |
| KmlHelpers.ChainIsPerCharacter | utils/converter/kml/kmlHelpers.ts:6-13 | the five chained replacements equal escaping each character on its own |
| KmlHelpers.EscapeXml | utils/converter/kml/kmlHelpers.ts:6-13 | the escaped text is the per-character escape and contains no raw `<`, `>`, `"` or `'` |
| KmlHelpers.NoRawSpecials | utils/converter/kml/kmlHelpers.ts:6-13 | no markup-significant character other than `&` survives escaping |
| KmlHelpers.AmpersandsStartEntities | utils/converter/kml/kmlHelpers.ts:6-13 | every `&` in the escaped text starts one of the five entities |
| KmlHelpers.EscapeXmlRoundTrip | utils/converter/kml/kmlHelpers.ts:6-13 | decoding the five entities recovers the original text |
| KmlHelpers.FloorOfQuotient | utils/converter/kml/kmlHelpers.ts:19-20 | for whole seconds, the floor of the real quotient is integer division |
| KmlHelpers.RemainderOfWhole | utils/converter/kml/kmlHelpers.ts:20-21 | for whole seconds, the JavaScript remainder is the integer remainder |
| KmlHelpers.PartsOfWholeSeconds | utils/converter/kml/kmlHelpers.ts:18-21 | for whole non-negative seconds, hours·3600 + minutes·60 + seconds is the input, with minutes and seconds below 60 |
| KmlHelpers.NatText | utils/converter/kml/kmlHelpers.ts:24-28 | the decimal rendering is non-empty, all digits, and reads back as the number |
| KmlHelpers.FormatDuration | utils/converter/kml/kmlHelpers.ts:18-30 | an hours part exactly when there are hours, a minutes part exactly when there are hours or minutes, always ending in seconds |
| KmlHelpers.FormatDistance | utils/converter/kml/kmlHelpers.ts:35-41 | kilometres exactly from 1000 m on, as metres/1000; below that, the metres rounded to the nearest whole |
| KmlHelpers.NearlyAKilometre | utils/converter/kml/kmlHelpers.ts:36-39 | 999.5 m is shown as 1000 m, not as kilometres |
| Seqs.JsRound | utils/converter/investigationPoints/tripToInvestigationPoints.ts:315 | rounding lands within half a unit, halves going up |
| Seqs.JsSlicePrefix | utils/converter/investigationPoints/tripToInvestigationPoints.ts:324 | a prefix of the list, of the length `slice(0, end)` gives for a non-negative or negative end |
| Seqs.Filter | utils/converter/geojson/geojsonHelpers.ts:166-181 | the result is the ordered selection of exactly the elements that pass the test |

## Left out

- The haversine distance (`calculateDistance`) and the spherical cross-track formula are function parameters. The proofs rely only on distances being non-negative, symmetric and zero on equal positions, and on the cross-track value being non-negative.
- `Math.sqrt` in the speed statistics is a parameter `sqrt`. Only the statements that need a real square root require `IsSqrt` (non-negative on non-negative input).
- Floating point is exact `real` arithmetic. Rounding error, overflow and ±Infinity are not modelled; the infinite outlier threshold is the explicit `Threshold.Infinite`.
- NaN is modelled only for GeoJSON coordinates, where it changes the outcome (see Findings). Elsewhere timestamps are `int` and coordinates `real`.
- The distance cache of `tripToInvestigationPoints` is not modelled. Distances are recomputed. The cache keys positions by six decimals, so two positions that agree to six decimals share one cached distance; the model does not reproduce that aliasing.
- Logging (`console.log`) is left out; it has no effect on results.
- InvestigationCandidates.CourseIndex: computes `floor((n-1)·k/10)` exactly, where the source multiplies by the floating-point `k/10`. The two can differ by one when rounding pushes an exact multiple below an integer.
- KmlHelpers.FormatDistance: returns the kilometre value and the rounded metres, not the text; `toFixed(2)` and the unit suffix are not modelled.
- KmlHelpers.FormatDuration: proves the shape of the text (which parts appear). The numbers are rendered by `IntText`, which renders integers only; `PartsOfWholeSeconds` states the arithmetic for whole non-negative seconds only.
- KmlHelpers.EscapeXml: treats JavaScript strings as sequences of characters; UTF-16 surrogate pairs are not distinguished.
- The other KML helpers (styles, placemarks and document assembly) and the GPX helpers are document templating and are not part of this model.
- `utils/kmlHelpers.ts`: its `escapeXml` is an exact copy of the modelled one; its `formatDuration` (`H:MM:SS` with `padStart`, seconds taken as `seconds % 60` without flooring) and `formatDistance` (kilometres with two decimals, no branch and no unit) are different display formatters, left out as display formatting.
- `formatDuration`, `formatDistance` and `formatSpeed` of `utils/converter/geojson/geojsonHelpers.ts` (lines 193-247: "2h 30m"-style durations with zero parts omitted, metre/kilometre text, km/h rounded to two decimals) are display formatters, left out as display formatting.
- GeoJSON features and geometries carry only the fields the helpers set; extra properties and `bbox` members on features are not modelled.
- `utils/common/stationaryPointDetector.ts` (a second copy of `consolidateStationaryPoints`, with thresholds 100 m and 10 minutes, importing a `detectStationaryGroups` that `utils/common/geoUtils.ts` does not define), `trackPointSanitizer`, the static map generator, the n8n node and credential classes, and the HTTP client are not part of this model.
- TrackPointNormalizer.HasCoordinateProperties: always holds, because both sample types carry numeric coordinates. The run-time probe for malformed objects is not modelled.
- TripAnalyzer.AnalyzeTripData: a trip whose `track_points` field is missing altogether is not modelled. The model's trip always has a (possibly empty) sequence, and the empty case gives the error.
- An absent options object is the options value with every field `None`.
- Mutation of the merged candidates' scores in place (`mergedPoints[i].score += …`) is modelled as building a new list. No later distance depends on the scores, so the results agree.

## Findings

| source | as written | input that shows it | evidently intended | confidence | as-written member | corrected member |
|---|---|---|---|---|---|---|
| utils/converter/geojson/geojsonHelpers.ts:40 | `trackPointToCoordinate` rejects a longitude only when `longitude < -180 \|\| longitude > 180`; both comparisons are false for NaN, so a NaN longitude (and, at line 45, a NaN latitude) is accepted and emitted as a coordinate | a track point with longitude NaN and latitude 35 | reject a coordinate unless it lies between -180 and 180 (latitude -90 and 90), as the error message says and as `filterValidTrackPoints` (lines 177-179) already tests | not executed | GeoJsonHelpers.NaNLongitudeSlipsThrough | GeoJsonHelpers.TrackPointToCoordinate |
